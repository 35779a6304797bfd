/**
 * Sorting by a total preorder: the model of `np.argsort`, of the median's
 * ordering and of `sort_values`. Only order-independent facts are promised
 * about elements the preorder ties.
 */
module Sorting {
  import opened Seqs

  /** `le` is total and transitive: a sort key. */
  ghost predicate TotalPreorder<T(!new)>(le: (T, T) -> bool) {
    && (forall a, b :: le(a, b) || le(b, a))
    && (forall a, b, c :: le(a, b) && le(b, c) ==> le(a, c))
  }

  predicate SortedBy<T>(s: seq<T>, le: (T, T) -> bool) {
    forall i, j :: 0 <= i < j < |s| ==> le(s[i], s[j])
  }

  function Insert<T>(x: T, s: seq<T>, le: (T, T) -> bool): (r: seq<T>)
    ensures |r| == |s| + 1
    ensures multiset(r) == multiset(s) + multiset{x}
  {
    if s == [] then [x]
    else if le(x, s[0]) then [x] + s
    else
      assert s == [s[0]] + s[1..];
      [s[0]] + Insert(x, s[1..], le)
  }

  /** Insertion sort; the result is a permutation of the input. */
  function SortBy<T>(s: seq<T>, le: (T, T) -> bool): (r: seq<T>)
    ensures |r| == |s|
    ensures multiset(r) == multiset(s)
  {
    if s == [] then []
    else
      assert s == [s[0]] + s[1..];
      Insert(s[0], SortBy(s[1..], le), le)
  }

  lemma {:induction false} InsertSorted<T(!new)>(x: T, s: seq<T>, le: (T, T) -> bool)
    requires TotalPreorder(le)
    requires SortedBy(s, le)
    ensures SortedBy(Insert(x, s, le), le)
  {
    if s != [] && !le(x, s[0]) {
      var tail := Insert(x, s[1..], le);
      InsertSorted(x, s[1..], le);
      assert le(s[0], x);
      forall y | y in tail
        ensures le(s[0], y)
      {
        assert y in multiset(tail);
        if y != x {
          assert y in multiset(s[1..]);
          var j :| 0 <= j < |s[1..]| && s[1..][j] == y;
          assert s[j + 1] == y;
        }
      }
    }
  }

  lemma {:induction false} SortBySorted<T(!new)>(s: seq<T>, le: (T, T) -> bool)
    requires TotalPreorder(le)
    ensures SortedBy(SortBy(s, le), le)
  {
    if s != [] {
      SortBySorted(s[1..], le);
      InsertSorted(s[0], SortBy(s[1..], le), le);
    }
  }

  /** Removing one value from a sorted sequence keeps it sorted. */
  lemma {:induction false} WithoutSorted<T>(s: seq<T>, x: T, le: (T, T) -> bool)
    requires SortedBy(s, le)
    ensures SortedBy(Without(s, x), le)
  {
    if s != [] {
      var init := s[..|s| - 1];
      var last := s[|s| - 1];
      WithoutSorted(init, x, le);
      var w := Without(init, x);
      WithoutSpec(init, x);
      if last != x {
        forall i | 0 <= i < |w|
          ensures le(w[i], last)
        {
          assert w[i] in multiset(w);
          assert w[i] in multiset(init);
          var a :| 0 <= a < |init| && init[a] == w[i];
          assert s[a] == init[a];
        }
      }
    }
  }

  /**
   * In a sorted sequence, an element left over after taking a prefix is
   * ordered after every element of the prefix (the "top n" property).
   */
  lemma PrefixBeforeRest<T>(s: seq<T>, m: nat, c: T, le: (T, T) -> bool)
    requires SortedBy(s, le)
    requires m <= |s|
    requires multiset(s[..m])[c] < multiset(s)[c]
    ensures forall k :: 0 <= k < m ==> le(s[k], c)
  {
    assert s == s[..m] + s[m..];
    assert multiset(s) == multiset(s[..m]) + multiset(s[m..]);
    assert c in multiset(s[m..]);
    var j :| 0 <= j < |s[m..]| && s[m..][j] == c;
    assert s[m + j] == c;
  }

  /** `0, 1, ..., n - 1`. */
  function Range(n: nat): (r: seq<nat>)
    ensures |r| == n
    ensures forall i :: 0 <= i < n ==> r[i] == i
  {
    seq(n, i requires 0 <= i < n => i)
  }

  lemma {:induction false} RangeCount(n: nat, x: nat)
    ensures multiset(Range(n))[x] == if x < n then 1 else 0
  {
    if n > 0 {
      RangeCount(n - 1, x);
      assert Range(n) == Range(n - 1) + [n - 1];
    }
  }

  function KeyAt(keys: seq<real>, i: nat): real {
    if i < |keys| then keys[i] else 0.0
  }

  /** Index order by ascending key. */
  function ByKey(keys: seq<real>): (nat, nat) -> bool {
    (a: nat, b: nat) => KeyAt(keys, a) <= KeyAt(keys, b)
  }

  lemma ByKeyPreorder(keys: seq<real>)
    ensures TotalPreorder(ByKey(keys))
  {
  }

  /** Insert index `x` before the first index of `s` whose key is at least `x`'s. */
  function InsertIndex(x: nat, s: seq<nat>, keys: seq<real>): (r: seq<nat>)
    ensures |r| == |s| + 1
  {
    if s == [] then [x]
    else if KeyAt(keys, x) <= KeyAt(keys, s[0]) then [x] + s
    else [s[0]] + InsertIndex(x, s[1..], keys)
  }

  /** Insertion sort of indices by key. */
  function SortIndices(s: seq<nat>, keys: seq<real>): (r: seq<nat>)
    ensures |r| == |s|
  {
    if s == [] then [] else InsertIndex(s[0], SortIndices(s[1..], keys), keys)
  }

  /** `np.argsort(keys)`: the indices of `keys`, by ascending key. */
  function ArgSort(keys: seq<real>): (order: seq<nat>)
    ensures |order| == |keys|
  {
    SortIndices(Range(|keys|), keys)
  }

  lemma {:induction false} InsertIndexIsInsert(x: nat, s: seq<nat>, keys: seq<real>)
    ensures InsertIndex(x, s, keys) == Insert(x, s, ByKey(keys))
  {
    if s != [] && !(KeyAt(keys, x) <= KeyAt(keys, s[0])) {
      InsertIndexIsInsert(x, s[1..], keys);
    }
  }

  /** The index sort is the generic sort under `ByKey`. */
  lemma {:induction false} SortIndicesIsSortBy(s: seq<nat>, keys: seq<real>)
    ensures SortIndices(s, keys) == SortBy(s, ByKey(keys))
  {
    if s != [] {
      SortIndicesIsSortBy(s[1..], keys);
      InsertIndexIsInsert(s[0], SortIndices(s[1..], keys), keys);
    }
  }

  /** Argsort is a permutation of the indices, ordered by key. */
  lemma ArgSortSpec(keys: seq<real>)
    ensures var order := ArgSort(keys);
      && (forall x: nat :: multiset(order)[x] == if x < |keys| then 1 else 0)
      && (forall i :: 0 <= i < |order| ==> order[i] < |keys|)
      && SortedBy(order, ByKey(keys))
  {
    var order := ArgSort(keys);
    SortIndicesIsSortBy(Range(|keys|), keys);
    assert multiset(order) == multiset(Range(|keys|));
    forall x: nat
      ensures multiset(order)[x] == if x < |keys| then 1 else 0
    {
      RangeCount(|keys|, x);
    }
    forall i | 0 <= i < |order|
      ensures order[i] < |keys|
    {
      assert order[i] in multiset(order);
    }
    ByKeyPreorder(keys);
    SortBySorted(Range(|keys|), ByKey(keys));
  }

  function RealLe(): (real, real) -> bool {
    (a: real, b: real) => a <= b
  }

  /** `Series.median()` of the non-null values. */
  function Median(vals: seq<real>): real
    requires |vals| > 0
  {
    var s := SortBy(vals, RealLe());
    var h := |s| / 2;
    if |s| % 2 == 1 then s[h] else (s[h - 1] + s[h]) / 2.0
  }

  /** The median lies between any bounds of the values. */
  lemma MedianWithin(vals: seq<real>, lo: real, hi: real)
    requires |vals| > 0
    requires forall v :: v in vals ==> lo <= v <= hi
    ensures lo <= Median(vals) <= hi
  {
    var s := SortBy(vals, RealLe());
    forall i | 0 <= i < |s|
      ensures lo <= s[i] <= hi
    {
      assert s[i] in multiset(s);
      assert s[i] in multiset(vals);
      assert s[i] in vals;
    }
  }

  /** Python's `s[::-1]`. */
  function Reverse<T>(s: seq<T>): (r: seq<T>)
    ensures |r| == |s|
    ensures forall k :: 0 <= k < |s| ==> r[k] == s[|s| - 1 - k]
  {
    seq(|s|, k requires 0 <= k < |s| => s[|s| - 1 - k])
  }

  lemma {:induction false} ReverseMultiset<T>(s: seq<T>)
    ensures multiset(Reverse(s)) == multiset(s)
  {
    if s != [] {
      var tail := s[1..];
      ReverseMultiset(tail);
      assert Reverse(s) == Reverse(tail) + [s[0]];
      assert s == [s[0]] + tail;
    }
  }

  /** The opposite order: `Flip(le)(a, b)` is `le(b, a)`. */
  function Flip<T>(le: (T, T) -> bool): (T, T) -> bool {
    (a: T, b: T) => le(b, a)
  }

  lemma ReverseSorted<T>(s: seq<T>, le: (T, T) -> bool)
    requires SortedBy(s, le)
    ensures SortedBy(Reverse(s), Flip(le))
  {
    var r := Reverse(s);
    forall i, j | 0 <= i < j < |r|
      ensures Flip(le)(r[i], r[j])
    {
      assert r[i] == s[|s| - 1 - i] && r[j] == s[|s| - 1 - j];
    }
  }

  /** A sequence in which no value occurs twice has distinct positions. */
  lemma CountsDistinct<T>(s: seq<T>)
    requires forall x :: multiset(s)[x] <= 1
    ensures Distinct(s)
  {
    forall a, b | 0 <= a < b < |s|
      ensures s[a] != s[b]
    {
      assert s == s[..b] + s[b..];
      assert multiset(s) == multiset(s[..b]) + multiset(s[b..]);
      assert s[a] == s[..b][a] && s[b] == s[b..][0];
      assert multiset(s[..b])[s[a]] >= 1 && multiset(s[b..])[s[b]] >= 1;
      assert multiset(s)[s[a]] == multiset(s[..b])[s[a]] + multiset(s[b..])[s[a]] <= 1;
    }
  }

  /** A prefix holds no more copies of a value than the whole. */
  lemma PrefixCount<T>(s: seq<T>, m: nat, x: T)
    requires m <= |s|
    ensures multiset(s[..m])[x] <= multiset(s)[x]
  {
    assert s == s[..m] + s[m..];
  }

  /** A sorted sequence's prefix is sorted. */
  lemma PrefixSorted<T>(s: seq<T>, m: nat, le: (T, T) -> bool)
    requires SortedBy(s, le) && m <= |s|
    ensures SortedBy(s[..m], le)
  {
  }

  /**
   * The first `m` elements of a sorted sequence without repeats: they are
   * distinct and sorted, and every element left out is ordered after each of them.
   */
  lemma TopPrefix<T>(w: seq<T>, m: nat, le: (T, T) -> bool)
    requires SortedBy(w, le) && m <= |w|
    requires forall x :: multiset(w)[x] <= 1
    ensures Distinct(w[..m]) && SortedBy(w[..m], le)
    ensures forall j, k :: j in w && j !in w[..m] && 0 <= k < m ==> le(w[k], j)
  {
    forall x
      ensures multiset(w[..m])[x] <= 1
    {
      PrefixCount(w, m, x);
    }
    CountsDistinct(w[..m]);
    forall j | j in w && j !in w[..m]
      ensures forall k :: 0 <= k < m ==> le(w[k], j)
    {
      assert multiset(w[..m])[j] == 0 && j in multiset(w);
      PrefixBeforeRest(w, m, j, le);
    }
  }
}
