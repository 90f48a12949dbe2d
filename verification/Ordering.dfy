/** The two orderings the program leans on: Python's stable `sorted`, and the
    lexicographic order it uses on strings and on tuples of strings. */
module StableSort {
  import opened Options
  import opened Permutations

  /** Any two elements compare, and comparison is transitive. Ties are allowed. */
  ghost predicate TotalPreorder<T(!new)>(le: (T, T) -> bool) {
    && (forall x, y :: le(x, y) || le(y, x))
    && (forall x, y, z :: le(x, y) && le(y, z) ==> le(x, z))
  }

  ghost predicate SortedBy<T>(le: (T, T) -> bool, xs: seq<T>) {
    forall i, j :: 0 <= i < j < |xs| ==> le(xs[i], xs[j])
  }

  /** Puts x in front of the first element it does not exceed. */
  function Insert<T>(le: (T, T) -> bool, x: T, xs: seq<T>): seq<T> {
    if xs == [] then [x]
    else if le(x, xs[0]) then [x] + xs
    else [xs[0]] + Insert(le, x, xs[1..])
  }

  /** A stable sort: an element is inserted before its equals that follow it. */
  function Sort<T>(le: (T, T) -> bool, xs: seq<T>): seq<T> {
    if xs == [] then [] else Insert(le, xs[0], Sort(le, xs[1..]))
  }

  lemma {:induction false} InsertIsPermutation<T>(le: (T, T) -> bool, x: T, xs: seq<T>)
    ensures multiset(Insert(le, x, xs)) == multiset(xs) + multiset{x}
  {
    if xs != [] && !le(x, xs[0]) {
      InsertIsPermutation(le, x, xs[1..]);
      assert xs == [xs[0]] + xs[1..];
    }
  }

  lemma {:induction false} InsertKeepsSorted<T(!new)>(le: (T, T) -> bool, x: T, xs: seq<T>)
    requires TotalPreorder(le) && SortedBy(le, xs)
    ensures SortedBy(le, Insert(le, x, xs))
  {
    if xs != [] && !le(x, xs[0]) {
      InsertKeepsSorted(le, x, xs[1..]);
      InsertIsPermutation(le, x, xs[1..]);
      var rest := Insert(le, x, xs[1..]);
      forall j | 0 <= j < |rest| ensures le(xs[0], rest[j]) {
        assert rest[j] in multiset(rest);
        assert rest[j] == x || rest[j] in xs[1..];
      }
    }
  }

  lemma {:induction false} SortIsPermutation<T>(le: (T, T) -> bool, xs: seq<T>)
    ensures multiset(Sort(le, xs)) == multiset(xs)
    ensures |Sort(le, xs)| == |xs|
  {
    if xs != [] {
      SortIsPermutation(le, xs[1..]);
      InsertIsPermutation(le, xs[0], Sort(le, xs[1..]));
      assert xs == [xs[0]] + xs[1..];
    }
    assert |multiset(Sort(le, xs))| == |multiset(xs)|;
  }

  lemma {:induction false} SortIsSorted<T(!new)>(le: (T, T) -> bool, xs: seq<T>)
    requires TotalPreorder(le)
    ensures SortedBy(le, Sort(le, xs))
  {
    if xs != [] {
      SortIsSorted(le, xs[1..]);
      InsertKeepsSorted(le, xs[0], Sort(le, xs[1..]));
    }
  }

  /** i is the first position in xs whose element no other element undercuts. */
  ghost predicate IsFirstMinimum<T>(le: (T, T) -> bool, xs: seq<T>, i: nat) {
    && i < |xs|
    && (forall j :: 0 <= j < |xs| ==> le(xs[i], xs[j]))
    && (forall j :: 0 <= j < i ==> !le(xs[j], xs[i]))
  }

  /** Stability at the head: among tied minima the earliest one comes first. */
  lemma {:induction false} SortHeadIsFirstMinimum<T(!new)>(le: (T, T) -> bool, xs: seq<T>) returns (i: nat)
    requires TotalPreorder(le) && xs != []
    ensures IsFirstMinimum(le, xs, i)
    ensures Sort(le, xs) != [] && Sort(le, xs)[0] == xs[i]
  {
    SortIsPermutation(le, xs);
    if |xs| == 1 {
      i := 0;
    } else {
      var k := SortHeadIsFirstMinimum(le, xs[1..]);
      assert forall j :: 1 <= j < |xs| ==> xs[j] == xs[1..][j - 1];
      i := if le(xs[0], xs[1..][k]) then 0 else k + 1;
      forall j | 0 <= j < i ensures !le(xs[j], xs[i]) {
        if j > 0 { assert xs[j] == xs[1..][j - 1]; }
      }
    }
  }

  function Tied<T>(le: (T, T) -> bool, k: T): T -> Option<T> {
    (x: T) => if le(x, k) && le(k, x) then Some(x) else None
  }

  /** The elements of xs that tie with k, in their order. */
  function Ties<T>(le: (T, T) -> bool, k: T, xs: seq<T>): seq<T> { Compact(Tied(le, k), xs) }

  lemma {:induction false} InsertTies<T(!new)>(le: (T, T) -> bool, k: T, x: T, xs: seq<T>)
    requires TotalPreorder(le) && SortedBy(le, xs)
    ensures Ties(le, k, Insert(le, x, xs)) == Ties(le, k, [x]) + Ties(le, k, xs)
  {
    if xs == [] {
      assert Ties(le, k, [x]) + [] == Ties(le, k, [x]);
    } else if le(x, xs[0]) {
      CompactAppend(Tied(le, k), [x], xs);
    } else {
      var h, t := xs[0], xs[1..];
      InsertTies(le, k, x, t);
      CompactAppend(Tied(le, k), [h], Insert(le, x, t));
      CompactAppend(Tied(le, k), [h], t);
      assert xs == [h] + t && Insert(le, x, xs) == [h] + Insert(le, x, t);
      OneTie(le, k, x, h);
    }
  }

  /** When x does not go before h, the two do not both tie with k. */
  lemma OneTie<T(!new)>(le: (T, T) -> bool, k: T, x: T, h: T)
    requires TotalPreorder(le) && !le(x, h)
    ensures Ties(le, k, [x]) == [] || Ties(le, k, [h]) == []
  {
    CompactOne(Tied(le, k), x);
    CompactOne(Tied(le, k), h);
    assert le(x, k) && le(k, h) ==> le(x, h);
  }

  /** Stability: tied elements keep their order. */
  lemma {:induction false} SortIsStable<T(!new)>(le: (T, T) -> bool, k: T, xs: seq<T>)
    requires TotalPreorder(le)
    ensures Ties(le, k, Sort(le, xs)) == Ties(le, k, xs)
  {
    if xs != [] {
      SortIsStable(le, k, xs[1..]);
      SortIsSorted(le, xs[1..]);
      InsertTies(le, k, xs[0], Sort(le, xs[1..]));
      CompactAppend(Tied(le, k), [xs[0]], xs[1..]);
      assert [xs[0]] + xs[1..] == xs;
    }
  }

  /** When no two distinct elements tie, the input order leaves no trace:
      every permutation sorts to the same sequence. */
  lemma {:induction false} SortIgnoresInputOrder<T(!new)>(le: (T, T) -> bool, xs: seq<T>, ys: seq<T>)
    requires TotalPreorder(le)
    requires multiset(xs) == multiset(ys)
    requires forall x, y :: x in xs && y in xs && le(x, y) && le(y, x) ==> x == y
    ensures Sort(le, xs) == Sort(le, ys)
  {
    var a, b := Sort(le, xs), Sort(le, ys);
    SortIsPermutation(le, xs);
    SortIsPermutation(le, ys);
    SortIsSorted(le, xs);
    SortIsSorted(le, ys);
    forall x | x in a ensures x in xs { assert x in multiset(a); }
    SortedPermutationsAgree(le, a, b);
  }

  lemma {:induction false} SortedPermutationsAgree<T(!new)>(le: (T, T) -> bool, a: seq<T>, b: seq<T>)
    requires SortedBy(le, a) && SortedBy(le, b)
    requires multiset(a) == multiset(b)
    requires forall x, y :: x in a && y in a && le(x, y) && le(y, x) ==> x == y
    ensures a == b
  {
    if a == [] || b == [] {
      assert |multiset(a)| == |multiset(b)|;
    } else {
      assert a[0] in multiset(b) && b[0] in multiset(a);
      SortedHead(le, a, b[0]);
      SortedHead(le, b, a[0]);
      DropHead(a, b);
      SortedPermutationsAgree(le, a[1..], b[1..]);
      assert a == [a[0]] + a[1..] && b == [b[0]] + b[1..];
    }
  }

  lemma SortedHead<T>(le: (T, T) -> bool, a: seq<T>, x: T)
    requires a != [] && SortedBy(le, a) && x in a
    ensures a[0] == x || le(a[0], x)
  {
  }

  lemma DropHead<T>(a: seq<T>, b: seq<T>)
    requires a != [] && b != [] && a[0] == b[0] && multiset(a) == multiset(b)
    ensures multiset(a[1..]) == multiset(b[1..])
  {
    assert a == [a[0]] + a[1..] && b == [b[0]] + b[1..];
    assert multiset(a[1..]) == multiset(a) - multiset{a[0]};
    assert multiset(b[1..]) == multiset(b) - multiset{b[0]};
  }
}

/** Lexicographic comparison, as Python compares strings and tuples. */
module Lexicographic {
  import opened StableSort

  ghost predicate TotalOrder<T(!new)>(le: (T, T) -> bool) {
    && TotalPreorder(le)
    && (forall x, y :: le(x, y) && le(y, x) ==> x == y)
  }

  /** A proper prefix comes before its extensions; otherwise the first
      difference decides. */
  predicate Lex<T(==)>(le: (T, T) -> bool, a: seq<T>, b: seq<T>) {
    if a == [] then true
    else if b == [] then false
    else if a[0] == b[0] then Lex(le, a[1..], b[1..])
    else le(a[0], b[0])
  }

  predicate CharLe(a: char, b: char) { a <= b }

  predicate StrLe(a: string, b: string) { Lex(CharLe, a, b) }

  predicate TupleLe(a: seq<string>, b: seq<string>) { Lex(StrLe, a, b) }

  lemma {:induction false} LexTotal<T(!new)>(le: (T, T) -> bool, a: seq<T>, b: seq<T>)
    requires TotalOrder(le)
    ensures Lex(le, a, b) || Lex(le, b, a)
    ensures Lex(le, a, b) && Lex(le, b, a) ==> a == b
  {
    if a != [] && b != [] {
      LexTotal(le, a[1..], b[1..]);
      assert a == [a[0]] + a[1..] && b == [b[0]] + b[1..];
    }
  }

  /** The sequences agree before the k-th element, and differ there. */
  ghost predicate DifferFirstAt<T>(a: seq<T>, b: seq<T>, k: nat) {
    k < |a| && k < |b| && a[..k] == b[..k] && a[k] != b[k]
  }

  lemma {:induction false} LexIff<T(!new)>(le: (T, T) -> bool, a: seq<T>, b: seq<T>)
    ensures Lex(le, a, b) <==> a <= b || exists k: nat :: DifferFirstAt(a, b, k) && le(a[k], b[k])
  {
    if a != [] && b != [] {
      if a[0] == b[0] {
        LexIff(le, a[1..], b[1..]);
        assert a == [a[0]] + a[1..] && b == [b[0]] + b[1..];
        forall k: nat ensures DifferFirstAt(a, b, k + 1) <==> DifferFirstAt(a[1..], b[1..], k) {
          if k < |a| - 1 && k < |b| - 1 {
            assert a[..k + 1] == [a[0]] + a[1..][..k] && b[..k + 1] == [b[0]] + b[1..][..k];
          }
        }
        if exists k: nat :: DifferFirstAt(a, b, k) && le(a[k], b[k]) {
          var k: nat :| DifferFirstAt(a, b, k) && le(a[k], b[k]);
          assert DifferFirstAt(a[1..], b[1..], k - 1);
        }
      } else {
        assert DifferFirstAt(a, b, 0);
        assert forall k: nat :: 0 < k <= |a| ==> a[..k][0] == a[0];
        assert forall k: nat :: 0 < k <= |b| ==> b[..k][0] == b[0];
      }
    }
  }

  /** Texts compare as Python compares them: a prefix first, and otherwise the
      smaller character at the first difference. */
  lemma StrLeIff(a: string, b: string)
    ensures StrLe(a, b) <==> a <= b || exists k: nat :: DifferFirstAt(a, b, k) && a[k] < b[k]
  {
    LexIff(CharLe, a, b);
  }

  lemma {:induction false} LexTransitive<T(!new)>(le: (T, T) -> bool, a: seq<T>, b: seq<T>, c: seq<T>)
    requires TotalOrder(le)
    requires Lex(le, a, b) && Lex(le, b, c)
    ensures Lex(le, a, c)
  {
    if a != [] && b != [] && c != [] && a[0] == b[0] == c[0] {
      LexTransitive(le, a[1..], b[1..], c[1..]);
    }
  }

  lemma StrLeIsTotalOrder()
    ensures TotalOrder(StrLe)
  {
    forall a, b ensures StrLe(a, b) || StrLe(b, a) { LexTotal(CharLe, a, b); }
    forall a, b | StrLe(a, b) && StrLe(b, a) ensures a == b { LexTotal(CharLe, a, b); }
    forall a, b, c | StrLe(a, b) && StrLe(b, c) ensures StrLe(a, c) { LexTransitive(CharLe, a, b, c); }
  }

  lemma TupleLeIsTotalOrder()
    ensures TotalOrder(TupleLe)
  {
    StrLeIsTotalOrder();
    forall a, b ensures TupleLe(a, b) || TupleLe(b, a) { LexTotal(StrLe, a, b); }
    forall a, b | TupleLe(a, b) && TupleLe(b, a) ensures a == b { LexTotal(StrLe, a, b); }
    forall a, b, c | TupleLe(a, b) && TupleLe(b, c) ensures TupleLe(a, c) { LexTransitive(StrLe, a, b, c); }
  }
}
