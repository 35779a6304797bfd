/**
 * Sequence helpers shared by the pipeline: keep-first de-duplication (the
 * behaviour of `drop_duplicates(keep="first")` and of `_unique_preserve_order`)
 * and Python's prefix slice `xs[:n]`.
 */
module Seqs {

  /** The identity function, used as the key of plain de-duplication. */
  function Id<T>(x: T): T { x }

  /** Index of the first element of `xs` whose key is `k`, or `|xs|` when there is none. */
  function FirstIndex<T, K(==)>(xs: seq<T>, key: T -> K, k: K): (r: nat)
    ensures r <= |xs|
    ensures r < |xs| ==> key(xs[r]) == k
    ensures forall j :: 0 <= j < r ==> key(xs[j]) != k
  {
    if xs == [] then 0
    else
      var f := FirstIndex(xs[..|xs| - 1], key, k);
      if f < |xs| - 1 then f
      else if key(xs[|xs| - 1]) == k then |xs| - 1
      else |xs|
  }

  /** The first index in `[x] + ys` is one past the first index in `ys`, unless `x` has the key. */
  lemma FirstIndexCons<T, K>(x: T, ys: seq<T>, key: T -> K, k: K)
    ensures FirstIndex([x] + ys, key, k) == if key(x) == k then 0 else 1 + FirstIndex(ys, key, k)
  {
    var xs := [x] + ys;
    var a := FirstIndex(xs, key, k);
    var b := FirstIndex(ys, key, k);
    assert xs[0] == x;
    if key(x) != k {
      if b < |ys| {
        assert xs[b + 1] == ys[b];
      }
      if a < |xs| {
        assert xs[a] == ys[a - 1];
      }
    }
  }

  /** Some element of `xs` has key `k`. */
  predicate HasKey<T, K(==)>(xs: seq<T>, key: T -> K, k: K) {
    FirstIndex(xs, key, k) < |xs|
  }

  lemma HasKeyIff<T, K>(xs: seq<T>, key: T -> K, k: K)
    ensures HasKey(xs, key, k) <==> exists j :: 0 <= j < |xs| && key(xs[j]) == k
  {
  }

  /** Keep the first element of every key, in order (drop_duplicates(keep="first")). */
  function KeepFirstBy<T, K(==)>(xs: seq<T>, key: T -> K): seq<T>
  {
    if xs == [] then []
    else
      var init := xs[..|xs| - 1];
      if HasKey(init, key, key(xs[|xs| - 1])) then KeepFirstBy(init, key)
      else KeepFirstBy(init, key) + [xs[|xs| - 1]]
  }

  /** Plain de-duplication preserving first-occurrence order. */
  function Dedup<T(==)>(xs: seq<T>): seq<T> {
    KeepFirstBy(xs, Id)
  }

  predicate DistinctKeys<T, K(==)>(xs: seq<T>, key: T -> K) {
    forall i, j :: 0 <= i < j < |xs| ==> key(xs[i]) != key(xs[j])
  }

  predicate Distinct<T(==)>(xs: seq<T>) {
    forall i, j :: 0 <= i < j < |xs| ==> xs[i] != xs[j]
  }

  /** Two sequences whose elements have the same keys, position by position, find a key at the same index. */
  lemma FirstIndexSameKeys<T, U, K>(xs: seq<T>, kx: T -> K, ys: seq<U>, ky: U -> K, k: K)
    requires |xs| == |ys|
    requires forall i :: 0 <= i < |xs| ==> kx(xs[i]) == ky(ys[i])
    ensures FirstIndex(xs, kx, k) == FirstIndex(ys, ky, k)
  {
  }

  lemma FirstIndexPrefix<T, K>(xs: seq<T>, key: T -> K, k: K, n: nat)
    requires n <= |xs|
    requires FirstIndex(xs[..n], key, k) < n
    ensures FirstIndex(xs, key, k) == FirstIndex(xs[..n], key, k)
  {
    var f := FirstIndex(xs[..n], key, k);
    assert xs[..n][f] == xs[f];
    forall j | 0 <= j < f
      ensures key(xs[j]) != k
    {
      assert xs[..n][j] == xs[j];
    }
    assert FirstIndex(xs, key, k) <= f;
  }

  /** The last step of keep-first: the new element is kept iff its key is new. */
  lemma KeepFirstByStep<T, K>(xs: seq<T>, key: T -> K)
    requires xs != []
    ensures var init := xs[..|xs| - 1];
      && xs == init + [xs[|xs| - 1]]
      && KeepFirstBy(xs, key) == if HasKey(init, key, key(xs[|xs| - 1])) then KeepFirstBy(init, key)
                                 else KeepFirstBy(init, key) + [xs[|xs| - 1]]
  {
  }

  /** Kept elements come from the input and each is the first of its key. */
  lemma {:induction false} KeepFirstByFirst<T, K>(xs: seq<T>, key: T -> K)
    ensures var r := KeepFirstBy(xs, key);
      && |r| <= |xs|
      && (forall i :: 0 <= i < |r| ==> FirstIndex(xs, key, key(r[i])) < |xs| && r[i] == xs[FirstIndex(xs, key, key(r[i]))])
  {
    if xs != [] {
      var n := |xs| - 1;
      var init := xs[..n];
      var ri := KeepFirstBy(init, key);
      KeepFirstByFirst(init, key);
      KeepFirstByStep(xs, key);
      var r := KeepFirstBy(xs, key);
      forall i | 0 <= i < |r|
        ensures FirstIndex(xs, key, key(r[i])) < |xs| && r[i] == xs[FirstIndex(xs, key, key(r[i]))]
      {
        if i < |ri| {
          assert r[i] == ri[i];
          FirstIndexPrefix(xs, key, key(ri[i]), n);
        } else {
          assert r[i] == xs[n];
        }
      }
    }
  }

  /** Kept keys are pairwise distinct. */
  lemma {:induction false} KeepFirstByDistinct<T, K>(xs: seq<T>, key: T -> K)
    ensures DistinctKeys(KeepFirstBy(xs, key), key)
  {
    if xs != [] {
      var n := |xs| - 1;
      var init := xs[..n];
      var ri := KeepFirstBy(init, key);
      KeepFirstByDistinct(init, key);
      KeepFirstByFirst(init, key);
      KeepFirstByStep(xs, key);
      var r := KeepFirstBy(xs, key);
      if !HasKey(init, key, key(xs[n])) {
        forall i, j | 0 <= i < j < |r|
          ensures key(r[i]) != key(r[j])
        {
          if j == |ri| {
            assert r[i] == ri[i];
            var f := FirstIndex(init, key, key(ri[i]));
            assert init[f] == ri[i];
          } else {
            assert r[i] == ri[i] && r[j] == ri[j];
          }
        }
      }
    }
  }

  /** Every key of the input survives. */
  lemma {:induction false} KeepFirstByCovers<T, K>(xs: seq<T>, key: T -> K)
    ensures forall j :: 0 <= j < |xs| ==> HasKey(KeepFirstBy(xs, key), key, key(xs[j]))
  {
    if xs != [] {
      var n := |xs| - 1;
      var init := xs[..n];
      var ri := KeepFirstBy(init, key);
      KeepFirstByCovers(init, key);
      KeepFirstByStep(xs, key);
      var r := KeepFirstBy(xs, key);
      forall j | 0 <= j < |xs|
        ensures HasKey(r, key, key(xs[j]))
      {
        if j < n {
          assert init[j] == xs[j];
          var w := FirstIndex(ri, key, key(xs[j]));
          assert r[w] == ri[w];
        } else if HasKey(init, key, key(xs[n])) {
          var f := FirstIndex(init, key, key(xs[n]));
          assert init[f] == xs[f];
          var w := FirstIndex(ri, key, key(init[f]));
          assert r[w] == ri[w];
        } else {
          assert r[|ri|] == xs[n];
        }
      }
    }
  }

  /** Kept elements appear in the order of their keys' first occurrence. */
  lemma {:induction false} KeepFirstByOrder<T, K>(xs: seq<T>, key: T -> K)
    ensures var r := KeepFirstBy(xs, key);
      forall i, j :: 0 <= i < j < |r| ==> FirstIndex(xs, key, key(r[i])) < FirstIndex(xs, key, key(r[j]))
  {
    if xs != [] {
      var n := |xs| - 1;
      var init := xs[..n];
      var ri := KeepFirstBy(init, key);
      KeepFirstByOrder(init, key);
      KeepFirstByFirst(init, key);
      KeepFirstByStep(xs, key);
      var r := KeepFirstBy(xs, key);
      forall i, j | 0 <= i < j < |r|
        ensures FirstIndex(xs, key, key(r[i])) < FirstIndex(xs, key, key(r[j]))
      {
        assert r[i] == ri[i];
        FirstIndexPrefix(xs, key, key(ri[i]), n);
        if j < |ri| {
          assert r[j] == ri[j];
          FirstIndexPrefix(xs, key, key(ri[j]), n);
        } else {
          assert r[j] == xs[n];
          assert !HasKey(init, key, key(xs[n]));
        }
      }
    }
  }

  /** When no key repeats, keep-first is the identity. */
  lemma {:induction false} KeepFirstByNoop<T, K>(xs: seq<T>, key: T -> K)
    requires DistinctKeys(xs, key)
    ensures KeepFirstBy(xs, key) == xs
  {
    if xs != [] {
      var init := xs[..|xs| - 1];
      KeepFirstByNoop(init, key);
      assert !HasKey(init, key, key(xs[|xs| - 1]));
      assert init + [xs[|xs| - 1]] == xs;
    }
  }

  /** `Dedup` has no duplicates, the same elements, in first-occurrence order. */
  lemma DedupSpec<T>(xs: seq<T>)
    ensures var r := Dedup(xs);
      && |r| <= |xs|
      && Distinct(r)
      && (forall x :: x in r <==> x in xs)
      && (forall i, j :: 0 <= i < j < |r| ==> FirstIndex(xs, Id, r[i]) < FirstIndex(xs, Id, r[j]))
  {
    var r := Dedup(xs);
    KeepFirstByDistinct(xs, Id);
    KeepFirstByCovers(xs, Id);
    KeepFirstByFirst(xs, Id);
    KeepFirstByOrder(xs, Id);
    forall x | x in xs ensures x in r {
      var j :| 0 <= j < |xs| && xs[j] == x;
      assert HasKey(r, Id, Id(xs[j]));
    }
  }

  lemma DedupNoop<T>(xs: seq<T>)
    requires Distinct(xs)
    ensures Dedup(xs) == xs
  {
    KeepFirstByNoop(xs, Id);
  }

  /**
   * `_unique_preserve_order`: walk the items once, remembering what has been
   * seen, and append each item the first time it appears.
   */
  method UniquePreserveOrder<T(==)>(items: seq<T>) returns (out: seq<T>)
    ensures out == Dedup(items)
    ensures Distinct(out)
    ensures forall x :: x in out <==> x in items
    ensures forall i, j :: 0 <= i < j < |out| ==> FirstIndex(items, Id, out[i]) < FirstIndex(items, Id, out[j])
  {
    var seen: set<T> := {};
    out := [];
    var i := 0;
    while i < |items|
      invariant 0 <= i <= |items|
      invariant out == KeepFirstBy(items[..i], Id)
      invariant forall x :: x in seen <==> x in items[..i]
    {
      var x := items[i];
      assert items[..i + 1][..i] == items[..i];
      assert HasKey(items[..i], Id, x) <==> x in items[..i] by {
        HasKeyIff(items[..i], Id, x);
      }
      if x !in seen {
        seen := seen + {x};
        out := out + [x];
      }
      assert items[..i + 1] == items[..i] + [x];
      i := i + 1;
    }
    assert items[..i] == items;
    DedupSpec(items);
  }

  /** Number of elements Python's `xs[:n]` (and pandas' `head(n)`) keeps of `len` items. */
  function PyTakeCount(len: nat, n: int): (k: nat)
    ensures k <= len
    ensures n >= 0 ==> k == if n < len then n else len
    ensures n < 0 ==> k == if len + n > 0 then len + n else 0
  {
    if n >= 0 then (if n < len then n else len)
    else if len + n > 0 then len + n else 0
  }

  /** Python's `xs[:n]`. */
  function PyTake<T>(xs: seq<T>, n: int): (r: seq<T>)
    ensures r == xs[..PyTakeCount(|xs|, n)]
  {
    xs[..PyTakeCount(|xs|, n)]
  }

  /** Elements of `xs` other than `x`, in order (`order[order != i]`). */
  function Without<T(==)>(xs: seq<T>, x: T): seq<T> {
    if xs == [] then []
    else
      var init := Without(xs[..|xs| - 1], x);
      if xs[|xs| - 1] == x then init else init + [xs[|xs| - 1]]
  }

  /** Filtering out `x` drops exactly its copies and keeps every other value's count. */
  lemma {:induction false} WithoutSpec<T>(xs: seq<T>, x: T)
    ensures var r := Without(xs, x);
      && |r| == |xs| - multiset(xs)[x]
      && x !in r
      && multiset(r) == multiset(xs)[x := 0]
  {
    if xs != [] {
      assert xs == xs[..|xs| - 1] + [xs[|xs| - 1]];
      WithoutSpec(xs[..|xs| - 1], x);
    }
  }

  /** `[x for x in xs if keep(x)]`. */
  function Filter<T(!new)>(xs: seq<T>, keep: T -> bool): (r: seq<T>)
    ensures |r| <= |xs|
    ensures forall x :: x in r <==> x in xs && keep(x)
  {
    if xs == [] then [] else (if keep(xs[0]) then [xs[0]] else []) + Filter(xs[1..], keep)
  }
}
