/** The stable sort of JavaScript's `Array.prototype.sort` and Go's
    `sort.SliceStable`, for integer keys. */
module Sorting {
  ghost predicate SortedBy<T>(key: T -> int, s: seq<T>) {
    forall i, j :: 0 <= i < j < |s| ==> key(s[i]) <= key(s[j])
  }

  ghost predicate StrictlySortedBy<T>(key: T -> int, s: seq<T>) {
    forall i, j :: 0 <= i < j < |s| ==> key(s[i]) < key(s[j])
  }

  /** `x` goes after every element whose key is not above its own. */
  function Insert<T>(key: T -> int, s: seq<T>, x: T): seq<T> {
    if s == [] || key(s[|s| - 1]) <= key(x) then s + [x]
    else Insert(key, s[..|s| - 1], x) + [s[|s| - 1]]
  }

  function Sort<T>(key: T -> int, s: seq<T>): seq<T> {
    if s == [] then [] else Insert(key, Sort(key, s[..|s| - 1]), s[|s| - 1])
  }

  lemma {:induction false} InsertAdds<T>(key: T -> int, s: seq<T>, x: T)
    ensures multiset(Insert(key, s, x)) == multiset(s) + multiset{x}
    ensures |Insert(key, s, x)| == |s| + 1
  {
    if s != [] && key(s[|s| - 1]) > key(x) {
      InsertAdds(key, s[..|s| - 1], x);
      assert s == s[..|s| - 1] + [s[|s| - 1]];
    }
  }

  ghost predicate AtMost<T>(key: T -> int, s: seq<T>, bound: int) {
    forall i :: 0 <= i < |s| ==> key(s[i]) <= bound
  }

  lemma {:induction false} InsertKeepsOrder<T>(key: T -> int, s: seq<T>, x: T, bound: int)
    requires SortedBy(key, s) && AtMost(key, s, bound) && key(x) <= bound
    ensures SortedBy(key, Insert(key, s, x)) && AtMost(key, Insert(key, s, x), bound)
  {
    if s != [] && key(s[|s| - 1]) > key(x) {
      InsertKeepsOrder(key, s[..|s| - 1], x, key(s[|s| - 1]));
    }
  }

  lemma {:induction false} InsertKeeps<T>(key: T -> int, s: seq<T>, x: T)
    requires SortedBy(key, s)
    ensures SortedBy(key, Insert(key, s, x))
    ensures multiset(Insert(key, s, x)) == multiset(s) + multiset{x}
    ensures |Insert(key, s, x)| == |s| + 1
  {
    hide Insert;
    InsertAdds(key, s, x);
    var last := if s == [] then x else s[|s| - 1];
    InsertKeepsOrder(key, s, x, if key(x) <= key(last) then key(last) else key(x));
  }

  /** Sorting gives the same elements, as often, in order. */
  lemma {:induction false} SortSorts<T>(key: T -> int, s: seq<T>)
    ensures SortedBy(key, Sort(key, s))
    ensures multiset(Sort(key, s)) == multiset(s) && |Sort(key, s)| == |s|
  {
    if s != [] {
      var rest := s[..|s| - 1];
      SortSorts(key, rest);
      InsertKeeps(key, Sort(key, rest), s[|s| - 1]);
      assert s == rest + [s[|s| - 1]];
    }
  }

  /** A sorted list is left as it is. */
  lemma {:induction false} SortOfSorted<T>(key: T -> int, s: seq<T>)
    requires SortedBy(key, s)
    ensures Sort(key, s) == s
  {
    if s != [] {
      SortOfSorted(key, s[..|s| - 1]);
    }
  }

  lemma {:induction false} ElementsOf<T>(a: seq<T>, b: seq<T>, i: nat)
    requires multiset(a) == multiset(b) && i < |a|
    ensures a[i] in b && |a| == |b|
  {
    assert a[i] in multiset(b);
    assert |multiset(a)| == |a| && |multiset(b)| == |b|;
  }

  lemma {:induction false} WithoutLast<T>(a: seq<T>)
    requires a != []
    ensures multiset(a[..|a| - 1]) == multiset(a) - multiset{a[|a| - 1]}
  {
    assert a == a[..|a| - 1] + [a[|a| - 1]];
  }

  lemma {:induction false} PrefixesAreSorted<T>(key: T -> int, s: seq<T>)
    requires s != []
    ensures SortedBy(key, s) ==> SortedBy(key, s[..|s| - 1])
    ensures StrictlySortedBy(key, s) ==> StrictlySortedBy(key, s[..|s| - 1])
  {
  }

  lemma {:induction false} SameLast<T>(key: T -> int, a: seq<T>, b: seq<T>)
    requires StrictlySortedBy(key, a) && SortedBy(key, b)
    requires multiset(a) == multiset(b) && a != []
    ensures b != [] && a[|a| - 1] == b[|b| - 1]
  {
    ElementsOf(a, b, |a| - 1);
    ElementsOf(b, a, |b| - 1);
    var i :| 0 <= i < |b| && b[i] == a[|a| - 1];
    var j :| 0 <= j < |a| && a[j] == b[|b| - 1];
    assert key(a[|a| - 1]) <= key(a[j]);
  }

  lemma {:induction false} WithoutSameLast<T>(a: seq<T>, b: seq<T>)
    requires a != [] && b != [] && multiset(a) == multiset(b) && a[|a| - 1] == b[|b| - 1]
    ensures multiset(a[..|a| - 1]) == multiset(b[..|b| - 1])
    ensures a[..|a| - 1] == b[..|b| - 1] ==> a == b
  {
    WithoutLast(a);
    WithoutLast(b);
    assert a == a[..|a| - 1] + [a[|a| - 1]] && b == b[..|b| - 1] + [b[|b| - 1]];
  }

  lemma {:induction false} NothingElse<T>(b: seq<T>)
    requires multiset(b) == multiset([])
    ensures b == []
  {
    assert |multiset(b)| == |b|;
  }

  lemma {:induction false} InsertBehind<T>(key: T -> int, a: seq<T>, b: seq<T>, x: T)
    requires forall i :: 0 <= i < |a| ==> key(a[i]) <= key(x)
    ensures Insert(key, a + b, x) == a + Insert(key, b, x)
  {
    if b == [] {
      assert a + b == a;
    } else {
      assert (a + b)[..|a + b| - 1] == a + b[..|b| - 1] && (a + b)[|a + b| - 1] == b[|b| - 1];
      if key(b[|b| - 1]) > key(x) { InsertBehind(key, a, b[..|b| - 1], x); }
    }
  }

  /** What has no larger keys sorts apart from what follows. */
  lemma {:induction false} SortInTwo<T>(key: T -> int, a: seq<T>, b: seq<T>)
    requires forall i, j :: 0 <= i < |a| && 0 <= j < |b| ==> key(a[i]) <= key(b[j])
    ensures Sort(key, a + b) == Sort(key, a) + Sort(key, b)
  {
    hide Insert;
    if b == [] {
      assert a + b == a;
    } else {
      var rest, x := b[..|b| - 1], b[|b| - 1];
      assert (a + b)[..|a + b| - 1] == a + rest;
      SortInTwo(key, a, rest);
      SortSorts(key, a);
      forall i | 0 <= i < |a| ensures key(Sort(key, a)[i]) <= key(x) { ElementsOf(Sort(key, a), a, i); }
      InsertBehind(key, Sort(key, a), Sort(key, rest), x);
    }
  }

  // What is inserted at or behind the n-th element leaves the first n alone.
  lemma {:induction false} InsertKeepsPrefix<T>(key: T -> int, s: seq<T>, x: T, n: nat)
    requires SortedBy(key, s) && 0 < n <= |s| && key(s[n - 1]) <= key(x)
    ensures |Insert(key, s, x)| == |s| + 1 && Insert(key, s, x)[..n] == s[..n]
  {
    if key(s[|s| - 1]) > key(x) {
      InsertKeepsPrefix(key, s[..|s| - 1], x, n);
    }
  }

  /** Elements that sort at or behind the n-th leave the first n alone. */
  lemma {:induction false} SortKeepsPrefix<T>(key: T -> int, a: seq<T>, b: seq<T>, n: nat)
    requires 0 < n <= |Sort(key, a)| && forall i :: 0 <= i < |b| ==> key(Sort(key, a)[n - 1]) <= key(b[i])
    ensures n <= |Sort(key, a + b)| && Sort(key, a + b)[..n] == Sort(key, a)[..n]
  {
    hide Insert;
    if b == [] {
      assert a + b == a;
    } else {
      var rest, x := b[..|b| - 1], b[|b| - 1];
      assert (a + b)[..|a + b| - 1] == a + rest;
      SortKeepsPrefix(key, a, rest, n);
      SortSorts(key, a + rest);
      assert Sort(key, a + rest)[n - 1] == Sort(key, a + rest)[..n][n - 1] == Sort(key, a)[..n][n - 1];
      InsertKeepsPrefix(key, Sort(key, a + rest), x, n);
    }
  }

  /** With strictly rising keys there is one order only. */
  lemma {:induction false} OneStrictOrder<T>(key: T -> int, a: seq<T>, b: seq<T>)
    requires StrictlySortedBy(key, a) && SortedBy(key, b)
    requires multiset(a) == multiset(b)
    ensures a == b
    decreases |a|
  {
    hide SortedBy, StrictlySortedBy;
    if |a| == 0 {
      assert a == [];
      NothingElse(b);
    } else {
      SameLast(key, a, b);
      WithoutSameLast(a, b);
      PrefixesAreSorted(key, a);
      PrefixesAreSorted(key, b);
      OneStrictOrder(key, a[..|a| - 1], b[..|b| - 1]);
    }
  }

  /** The two lists taken together by key, `a` first on equal keys. */
  function Merge<T>(key: T -> int, a: seq<T>, b: seq<T>): seq<T>
    decreases |a| + |b|
  {
    if a == [] && b == [] then []
    else if b != [] && (a == [] || key(a[|a| - 1]) <= key(b[|b| - 1])) then
      Merge(key, a, b[..|b| - 1]) + [b[|b| - 1]]
    else Merge(key, a[..|a| - 1], b) + [a[|a| - 1]]
  }

  lemma {:induction false} MergeWithNothing<T>(key: T -> int, a: seq<T>)
    ensures Merge(key, a, []) == a
  {
    if a != [] { MergeWithNothing(key, a[..|a| - 1]); }
  }

  lemma {:induction false} InsertIntoMerge<T>(key: T -> int, a: seq<T>, b: seq<T>, x: T)
    requires SortedBy(key, a) && SortedBy(key, b + [x])
    ensures Insert(key, Merge(key, a, b), x) == Merge(key, a, b + [x])
    decreases |a|
  {
    var more := b + [x];
    assert more[..|b|] == b && more[|b|] == x;
    assert b != [] ==> more[|b| - 1] == b[|b| - 1];
    if a != [] && key(a[|a| - 1]) > key(x) {
      InsertIntoMerge(key, a[..|a| - 1], b, x);
    }
  }

  /** Sorting two sorted lists one after the other merges them. */
  lemma {:induction false} SortOfConcatenation<T>(key: T -> int, a: seq<T>, b: seq<T>)
    requires SortedBy(key, a) && SortedBy(key, b)
    ensures Sort(key, a + b) == Merge(key, a, b)
  {
    if b == [] {
      assert a + b == a;
      SortOfSorted(key, a);
      MergeWithNothing(key, a);
    } else {
      hide Insert, Merge;
      var rest := b[..|b| - 1];
      SortOfConcatenation(key, a, rest);
      assert (a + b)[..|a + b| - 1] == a + rest;
      assert rest + [b[|b| - 1]] == b;
      InsertIntoMerge(key, a, rest, b[|b| - 1]);
    }
  }

  ghost predicate DistinctBy<T, K>(key: T -> K, s: seq<T>) {
    forall i, j :: 0 <= i < j < |s| ==> key(s[i]) != key(s[j])
  }

  lemma {:induction false} AppearsOnce<T, K>(key: T -> K, s: seq<T>, k: nat)
    requires DistinctBy(key, s) && k < |s|
    ensures multiset(s)[s[k]] == 1
  {
    assert s == s[..k] + [s[k]] + s[k + 1..];
    assert s[k] !in s[..k] && s[k] !in s[k + 1..];
  }

  lemma {:induction false} OnceEach<T, K>(key: T -> K, s: seq<T>, x: T)
    requires DistinctBy(key, s)
    ensures multiset(s)[x] == if x in s then 1 else 0
  {
    if x in s {
      var i: nat :| i < |s| && s[i] == x;
      AppearsOnce(key, s, i);
    }
  }

  lemma {:induction false} AppearsTwice<T>(s: seq<T>, i: nat, j: nat)
    requires i < j < |s| && s[i] == s[j]
    ensures multiset(s)[s[i]] >= 2
  {
    assert s == s[..i] + [s[i]] + s[i + 1..j] + [s[j]] + s[j + 1..];
  }

  /** Distinct keys stay distinct in any other order. */
  lemma {:induction false} PermutedStaysDistinct<T, K>(key: T -> K, a: seq<T>, b: seq<T>)
    requires DistinctBy(key, a) && multiset(a) == multiset(b)
    ensures DistinctBy(key, b)
  {
    forall i, j | 0 <= i < j < |b| ensures key(b[i]) != key(b[j]) {
      ElementsOf(b, a, i);
      ElementsOf(b, a, j);
      var k: nat :| k < |a| && a[k] == b[i];
      var l: nat :| l < |a| && a[l] == b[j];
      if b[i] == b[j] {
        AppearsTwice(b, i, j);
        AppearsOnce(key, a, k);
      }
    }
  }

  /** n numbers that rise strictly from at least 0 to below n are 0, 1, 2 and so on. */
  lemma {:induction false} RisingNumbers<T>(key: T -> int, s: seq<T>, i: nat)
    requires StrictlySortedBy(key, s) && i < |s|
    requires forall k :: 0 <= k < |s| ==> 0 <= key(s[k]) < |s|
    ensures key(s[i]) == i
  {
    AtLeastIndex(key, s, i);
    AtMostIndex(key, s, i);
  }

  lemma {:induction false} AtLeastIndex<T>(key: T -> int, s: seq<T>, i: nat)
    requires StrictlySortedBy(key, s) && i < |s|
    requires forall k :: 0 <= k < |s| ==> 0 <= key(s[k])
    ensures i <= key(s[i])
  {
    if i > 0 { AtLeastIndex(key, s, i - 1); }
  }

  lemma {:induction false} AtMostIndex<T>(key: T -> int, s: seq<T>, i: nat)
    requires StrictlySortedBy(key, s) && i < |s|
    requires forall k :: 0 <= k < |s| ==> key(s[k]) < |s|
    ensures key(s[i]) <= i
    decreases |s| - i
  {
    if i < |s| - 1 { AtMostIndex(key, s, i + 1); }
  }
}
