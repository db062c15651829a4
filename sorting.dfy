/**
 * A stable sort by an integer key, as `Array.prototype.sort` with a numeric
 * comparator behaves (stable since ECMAScript 2019). `SortBy` is insertion sort
 * on sequences; `InsertionSort` does the same in place on an array.
 */
module StableSort {

  predicate SortedBy<T>(s: seq<T>, key: T -> int) {
    forall i, j :: 0 <= i < j < |s| ==> key(s[i]) <= key(s[j])
  }

  /** Where insertion sort puts `x` into `s`: after the last element, scanning from the right, whose key is at most `x`'s. */
  function InsertPoint<T>(s: seq<T>, x: T, key: T -> int): (p: nat)
    ensures p <= |s|
    ensures forall i :: p <= i < |s| ==> key(s[i]) > key(x)
    ensures p > 0 ==> key(s[p - 1]) <= key(x)
  {
    if s == [] || key(s[|s| - 1]) <= key(x) then |s|
    else InsertPoint(s[..|s| - 1], x, key)
  }

  function InsertSorted<T>(s: seq<T>, x: T, key: T -> int): (r: seq<T>)
    ensures |r| == |s| + 1
  {
    var p := InsertPoint(s, x, key);
    s[..p] + [x] + s[p..]
  }

  /** Insertion sort: each element in turn is inserted into the sorted prefix before it. */
  function SortBy<T>(s: seq<T>, key: T -> int): (r: seq<T>)
    ensures |r| == |s|
  {
    if s == [] then []
    else
      var n := |s| - 1;
      InsertSorted(SortBy(s[..n], key), s[n], key)
  }

  /** The elements of `s` with key `k`, in their order in `s`. */
  function KeyClass<T>(s: seq<T>, key: T -> int, k: int): (r: seq<T>)
    ensures |r| <= |s|
  {
    if s == [] then []
    else KeyClass(s[..|s| - 1], key, k) + (if key(s[|s| - 1]) == k then [s[|s| - 1]] else [])
  }

  lemma {:induction false} KeyClassConcat<T>(a: seq<T>, b: seq<T>, key: T -> int, k: int)
    ensures KeyClass(a + b, key, k) == KeyClass(a, key, k) + KeyClass(b, key, k)
    decreases |b|
  {
    if b == [] {
      assert a + b == a;
    } else {
      var n := |b| - 1;
      assert (a + b)[..|a + b| - 1] == a + b[..n];
      KeyClassConcat(a, b[..n], key, k);
    }
  }

  /** The element at each position after insertion. */
  lemma InsertElements<T>(s: seq<T>, x: T, key: T -> int)
    ensures var p, r := InsertPoint(s, x, key), InsertSorted(s, x, key);
      && r[p] == x
      && (forall i :: 0 <= i < p ==> r[i] == s[i])
      && (forall i :: p < i < |r| ==> r[i] == s[i - 1])
  {
  }

  /** Inserting into a sorted sequence keeps it sorted. */
  lemma InsertKeepsSorted<T>(s: seq<T>, x: T, key: T -> int)
    requires SortedBy(s, key)
    ensures SortedBy(InsertSorted(s, x, key), key)
  {
    var p := InsertPoint(s, x, key);
    var r := InsertSorted(s, x, key);
    InsertElements(s, x, key);
    forall i, j | 0 <= i < j < |r| ensures key(r[i]) <= key(r[j]) {
      if j < p {
        assert key(s[i]) <= key(s[j]);
      } else if j == p {
        assert key(s[i]) <= key(s[p - 1]);
      } else if i < p {
        assert key(s[i]) <= key(s[p - 1]) <= key(x) < key(s[j - 1]);
      } else if i == p {
        assert key(x) < key(s[j - 1]);
      } else {
        assert key(s[i - 1]) <= key(s[j - 1]);
      }
    }
  }

  /** Insertion unfolds like the inner loop of insertion sort: either `x` goes last, or the last element moves past it. */
  lemma InsertUnfold<T>(s: seq<T>, x: T, key: T -> int)
    requires s != [] && key(s[|s| - 1]) > key(x)
    ensures InsertSorted(s, x, key) == InsertSorted(s[..|s| - 1], x, key) + [s[|s| - 1]]
  {
    var n := |s| - 1;
    var p := InsertPoint(s, x, key);
    assert p == InsertPoint(s[..n], x, key);
    assert s[..n][..p] == s[..p];
    assert s[p..] == s[..n][p..] + [s[n]];
  }

  /** Insertion keeps the order among equal keys and puts `x` after every earlier element with its key. */
  lemma {:induction false} InsertStable<T>(s: seq<T>, x: T, key: T -> int, k: int)
    ensures KeyClass(InsertSorted(s, x, key), key, k) == KeyClass(s, key, k) + (if key(x) == k then [x] else [])
    decreases |s|
  {
    var n := |s| - 1;
    if s == [] || key(s[n]) <= key(x) {
      assert InsertSorted(s, x, key) == s + [x];
      assert (s + [x])[..|s|] == s;
    } else {
      var r := InsertSorted(s[..n], x, key);
      InsertUnfold(s, x, key);
      InsertStable(s[..n], x, key, k);
      assert (r + [s[n]])[..|r|] == r;
    }
  }

  /** Insertion adds exactly `x`. */
  lemma InsertPermutes<T>(s: seq<T>, x: T, key: T -> int)
    ensures multiset(InsertSorted(s, x, key)) == multiset(s) + multiset{x}
  {
    var p := InsertPoint(s, x, key);
    assert s == s[..p] + s[p..];
  }

  /** `SortBy` is a permutation of its input. */
  lemma {:induction false} SortPermutes<T>(s: seq<T>, key: T -> int)
    ensures multiset(SortBy(s, key)) == multiset(s)
    decreases |s|
  {
    if s != [] {
      var n := |s| - 1;
      SortPermutes(s[..n], key);
      InsertPermutes(SortBy(s[..n], key), s[n], key);
      assert s == s[..n] + [s[n]];
    }
  }

  /** Sorting neither adds nor loses elements. */
  lemma SortKeepsMembers<T>(s: seq<T>, key: T -> int)
    ensures forall x :: x in SortBy(s, key) <==> x in s
  {
    SortPermutes(s, key);
    forall x ensures x in SortBy(s, key) <==> x in s {
      assert x in SortBy(s, key) <==> x in multiset(SortBy(s, key));
      assert x in s <==> x in multiset(s);
    }
  }

  /** `SortBy` orders by key. */
  lemma {:induction false} SortSorted<T>(s: seq<T>, key: T -> int)
    ensures SortedBy(SortBy(s, key), key)
    decreases |s|
  {
    if s != [] {
      var n := |s| - 1;
      SortSorted(s[..n], key);
      InsertKeepsSorted(SortBy(s[..n], key), s[n], key);
    }
  }

  /** `SortBy` is stable: for every key, the elements with that key keep their relative order. */
  lemma {:induction false} SortStable<T>(s: seq<T>, key: T -> int, k: int)
    ensures KeyClass(SortBy(s, key), key, k) == KeyClass(s, key, k)
    decreases |s|
  {
    if s != [] {
      var n := |s| - 1;
      SortStable(s[..n], key, k);
      InsertStable(SortBy(s[..n], key), s[n], key, k);
    }
  }

  /** A sequence already sorted by key comes out unchanged. */
  lemma {:induction false} SortOfSortedIsIdentity<T>(s: seq<T>, key: T -> int)
    requires SortedBy(s, key)
    ensures SortBy(s, key) == s
    decreases |s|
  {
    if s != [] {
      var n := |s| - 1;
      assert SortedBy(s[..n], key);
      SortOfSortedIsIdentity(s[..n], key);
      assert InsertPoint(s[..n], s[n], key) == n by {
        if n > 0 {
          assert key(s[n - 1]) <= key(s[n]);
        }
      }
      assert s[..n] + [s[n]] + s[..n][n..] == s;
    }
  }

  /** The insertion point is the slot with greater keys after it and a key at most `x`'s before it. */
  lemma {:induction false} InsertPointIs<T>(s: seq<T>, x: T, key: T -> int, p: nat)
    requires p <= |s|
    requires forall t :: p <= t < |s| ==> key(s[t]) > key(x)
    requires p == 0 || key(s[p - 1]) <= key(x)
    ensures InsertPoint(s, x, key) == p
    decreases |s|
  {
    if p < |s| {
      InsertPointIs(s[..|s| - 1], x, key, p);
    }
  }

  /** One step of insertion sort in place: `a[i]` is lifted out and the greater elements before it shift right. */
  method InsertInPlace<T>(a: array<T>, i: nat, key: T -> int)
    requires i < a.Length
    modifies a
    ensures a[..i + 1] == InsertSorted(old(a[..i]), old(a[i]), key)
    ensures a[i + 1..] == old(a[i + 1..])
  {
    var x := a[i];
    ghost var prefix := a[..i];
    var j := i;
    while j > 0 && key(a[j - 1]) > key(x)
      invariant 0 <= j <= i
      invariant forall t :: 0 <= t < j ==> a[t] == prefix[t]
      invariant forall t :: j < t <= i ==> a[t] == prefix[t - 1]
      invariant forall t :: i < t < a.Length ==> a[t] == old(a[t])
      invariant forall t :: j <= t < i ==> key(prefix[t]) > key(x)
    {
      a[j] := a[j - 1];
      j := j - 1;
    }
    a[j] := x;
    InsertPointIs(prefix, x, key, j);
    assert a[..i + 1] == InsertSorted(prefix, x, key);
  }

  /** Insertion sort in place, as `Array.prototype.sort` reorders its receiver. */
  method InsertionSort<T>(a: array<T>, key: T -> int)
    modifies a
    ensures a[..] == SortBy(old(a[..]), key)
  {
    ghost var s := a[..];
    var i := 0;
    while i < a.Length
      invariant 0 <= i <= a.Length
      invariant a[..i] == SortBy(s[..i], key)
      invariant a[i..] == s[i..]
    {
      assert a[i] == s[i];
      InsertInPlace(a, i, key);
      assert s[..i + 1][..i] == s[..i];
      i := i + 1;
    }
    assert s[..a.Length] == s;
  }
}
