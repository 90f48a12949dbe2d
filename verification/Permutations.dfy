/** Mapping over a sequence commutes with permuting it. */
module Permutations {
  import opened Options

  /** Dropping one occurrence of the same element on both sides. */
  lemma RemoveOne<T>(init: seq<T>, x: T, before: seq<T>, after: seq<T>)
    requires multiset(init + [x]) == multiset(before + [x] + after)
    ensures multiset(init) == multiset(before + after)
  {
    assert multiset(init) == multiset(init + [x]) - multiset{x};
    assert multiset(before + after) == multiset(before + [x] + after) - multiset{x};
  }

  lemma MovedToEnd<T>(a: seq<T>, x: T, b: seq<T>, y: T, c: seq<T>)
    ensures multiset(a + b + c + [x] + [y]) == multiset(a + [x] + b + [y] + c)
    ensures multiset(a + b + c + [y] + [x]) == multiset(a + [x] + b + [y] + c)
  {
  }

  /** Everything but two elements. */
  lemma PickTwo<T>(xs: seq<T>, i: nat, j: nat) returns (rest: seq<T>)
    requires i < |xs| && j < |xs| && i != j
    ensures multiset(rest + [xs[i]] + [xs[j]]) == multiset(xs)
    ensures multiset(rest + [xs[j]] + [xs[i]]) == multiset(xs)
  {
    var m, n := if i < j then i else j, if i < j then j else i;
    rest := xs[..m] + xs[m + 1..n] + xs[n + 1..];
    assert xs == xs[..m] + [xs[m]] + xs[m + 1..n] + [xs[n]] + xs[n + 1..];
    MovedToEnd(xs[..m], xs[m], xs[m + 1..n], xs[n], xs[n + 1..]);
  }

  /** Where the last element of xs stands in its permutation ys. */
  lemma SplitAtLast<T>(xs: seq<T>, ys: seq<T>) returns (before: seq<T>, after: seq<T>)
    requires xs != [] && multiset(xs) == multiset(ys)
    ensures ys == before + [xs[|xs| - 1]] + after
    ensures multiset(xs[..|xs| - 1]) == multiset(before + after)
  {
    var init, x := xs[..|xs| - 1], xs[|xs| - 1];
    assert xs == init + [x];
    assert x in multiset(ys);
    var j :| 0 <= j < |ys| && ys[j] == x;
    before, after := ys[..j], ys[j + 1..];
    assert ys == before + [x] + after;
    RemoveOne(init, x, before, after);
  }

  /** The comprehension [f(x) for x in xs], without the None results. */
  function Compact<A, B>(f: A -> Option<B>, xs: seq<A>): seq<B> {
    if xs == [] then []
    else Compact(f, xs[..|xs| - 1]) + match f(xs[|xs| - 1]) { case Some(y) => [y] case None => [] }
  }

  lemma {:induction false} CompactAppend<A, B>(f: A -> Option<B>, xs: seq<A>, ys: seq<A>)
    ensures Compact(f, xs + ys) == Compact(f, xs) + Compact(f, ys)
    decreases |ys|
  {
    if ys == [] {
      assert xs + ys == xs;
    } else {
      var init := ys[..|ys| - 1];
      assert (xs + ys)[..|xs + ys| - 1] == xs + init;
      CompactAppend(f, xs, init);
    }
  }

  lemma CompactOne<A, B>(f: A -> Option<B>, x: A)
    ensures Compact(f, [x]) == match f(x) { case Some(y) => [y] case None => [] }
  {
  }

  lemma CompactSnoc<A, B>(f: A -> Option<B>, xs: seq<A>, x: A)
    requires f(x).Some?
    ensures Compact(f, xs + [x]) == Compact(f, xs) + [f(x).value]
  {
  }

  lemma CompactTwo<A, B>(f: A -> Option<B>, x: A, y: A)
    requires f(x).Some? && f(y).Some?
    ensures Compact(f, [x, y]) == [f(x).value, f(y).value]
  {
    CompactSnoc(f, [x], y);
    CompactOne(f, x);
    assert [x] + [y] == [x, y];
  }

  lemma CompactMiddle<A, B>(f: A -> Option<B>, before: seq<A>, x: A, after: seq<A>)
    ensures Compact(f, before + [x] + after) == Compact(f, before) + Compact(f, [x]) + Compact(f, after)
  {
    CompactAppend(f, before + [x], after);
    CompactAppend(f, before, [x]);
  }

  lemma MovedToMiddle<T>(init: seq<T>, before: seq<T>, x: seq<T>, after: seq<T>)
    requires multiset(init) == multiset(before + after)
    ensures multiset(init + x) == multiset(before + x + after)
  {
  }

  lemma PermutedStep<A, B>(f: A -> Option<B>, init: seq<A>, x: A, before: seq<A>, after: seq<A>)
    requires multiset(Compact(f, init)) == multiset(Compact(f, before + after))
    ensures multiset(Compact(f, init + [x])) == multiset(Compact(f, before + [x] + after))
  {
    CompactAppend(f, init, [x]);
    CompactAppend(f, before, after);
    CompactMiddle(f, before, x, after);
    MovedToMiddle(Compact(f, init), Compact(f, before), Compact(f, [x]), Compact(f, after));
  }

  /** Two permutations, taken apart at the same element. */
  lemma SplitBoth<T>(xs: seq<T>, ys: seq<T>) returns (init: seq<T>, x: T, before: seq<T>, after: seq<T>)
    requires xs != [] && multiset(xs) == multiset(ys)
    ensures xs == init + [x] && ys == before + [x] + after
    ensures multiset(init) == multiset(before + after)
  {
    init, x := xs[..|xs| - 1], xs[|xs| - 1];
    before, after := SplitAtLast(xs, ys);
  }

  lemma OnlyEmptyPermutes<T>(ys: seq<T>)
    requires multiset(ys) == multiset{}
    ensures ys == []
  {
    assert |multiset(ys)| == 0;
  }

  lemma {:induction false} CompactPermuted<A, B>(f: A -> Option<B>, xs: seq<A>, ys: seq<A>)
    requires multiset(xs) == multiset(ys)
    ensures multiset(Compact(f, xs)) == multiset(Compact(f, ys))
    decreases |xs|
  {
    if xs == [] {
      OnlyEmptyPermutes(ys);
    } else {
      var init, x, before, after := SplitBoth(xs, ys);
      CompactPermuted(f, init, before + after);
      PermutedStep(f, init, x, before, after);
    }
  }

  /** Every result comes from an element. */
  lemma {:induction false} CompactMember<A, B>(f: A -> Option<B>, xs: seq<A>, y: B)
    requires y in Compact(f, xs)
    ensures exists i :: 0 <= i < |xs| && f(xs[i]) == Some(y)
  {
    var n := |xs| - 1;
    if y in Compact(f, xs[..n]) {
      CompactMember(f, xs[..n], y);
      var i :| 0 <= i < n && f(xs[..n][i]) == Some(y);
      assert f(xs[i]) == Some(y);
    } else {
      assert f(xs[n]) == Some(y);
    }
  }

  /** When nothing is dropped the results line up with the elements. */
  lemma {:induction false} CompactTotal<A, B>(f: A -> Option<B>, xs: seq<A>)
    requires forall i :: 0 <= i < |xs| ==> f(xs[i]).Some?
    ensures |Compact(f, xs)| == |xs|
    ensures forall i :: 0 <= i < |xs| ==> Compact(f, xs)[i] == f(xs[i]).value
  {
    if xs != [] {
      CompactTotal(f, xs[..|xs| - 1]);
    }
  }
}
