/**
 * pandas' left merge, `left.merge(right, on=keys, how="left", validate=...)`:
 * every left row, in order, is joined with each right row whose key cells
 * equal its own (in right order), or with null cells when no right row
 * matches. The key columns appear once, taken from the left table; any other
 * name that both tables carry is suffixed "_x" on the left and "_y" on the
 * right. Null keys match null keys, as they do in pandas.
 */
module Merge {
  import opened Seqs
  import opened Text
  import opened Tables

  /**
   * The `validate=` argument: "1:1" demands unique keys on both sides, "1:m"
   * on the left side only, and "m:m" (or no argument) checks nothing.
   */
  datatype Validate = OneToOne | OneToMany | ManyToMany

  /** Row `i`'s cells in the key columns. */
  function KeyOf(t: Table, i: int, on: seq<string>): (r: seq<Cell>)
    ensures |r| == |on|
  {
    seq(|on|, k requires 0 <= k < |on| => Get(t, i, on[k]))
  }

  /** No two rows share their key cells: the side passes `validate`. */
  predicate UniqueOn(t: Table, on: seq<string>) {
    forall i, j :: 0 <= i < j < |t.rows| ==> KeyOf(t, i, on) != KeyOf(t, j, on)
  }

  /** Positions of the right table's non-key columns, in order. */
  function RestPositions(r: Table, on: seq<string>): (p: seq<nat>)
    ensures forall q :: 0 <= q < |p| ==> p[q] < |r.columns| && r.columns[p[q]] !in on
  {
    Kept(seq(|r.columns|, c requires 0 <= c < |r.columns| => r.columns[c] !in on))
  }

  /** A non-key name both tables carry. */
  predicate Overlaps(l: Table, r: Table, on: seq<string>, c: string) {
    c !in on && c in l.columns && c in r.columns
  }

  function LeftName(l: Table, r: Table, on: seq<string>, c: string): string {
    if Overlaps(l, r, on, c) then c + "_x" else c
  }

  function RightName(l: Table, r: Table, on: seq<string>, c: string): string {
    if Overlaps(l, r, on, c) then c + "_y" else c
  }

  /** The left columns, then the right non-key columns, suffixed where they clash. */
  function MergedColumns(l: Table, r: Table, on: seq<string>): seq<string> {
    var rest := RestPositions(r, on);
    seq(|l.columns|, p requires 0 <= p < |l.columns| => LeftName(l, r, on, l.columns[p]))
      + seq(|rest|, q requires 0 <= q < |rest| => RightName(l, r, on, r.columns[rest[q]]))
  }

  /** The right rows whose key equals left row `i`'s key, in increasing order. */
  function Matches(l: Table, r: Table, on: seq<string>, i: int): (m: seq<nat>)
    ensures forall q :: 0 <= q < |m| ==> m[q] < |r.rows| && KeyOf(r, m[q], on) == KeyOf(l, i, on)
    ensures forall j :: 0 <= j < |r.rows| && KeyOf(r, j, on) == KeyOf(l, i, on) ==> j in m
    ensures forall a, b :: 0 <= a < b < |m| ==> m[a] < m[b]
  {
    Kept(seq(|r.rows|, j requires 0 <= j < |r.rows| => KeyOf(r, j, on) == KeyOf(l, i, on)))
  }

  /** Where one output row comes from: a left row and its matched right row, if any. */
  datatype Origin = Origin(left: nat, right: Option<nat>)

  /** The output rows of left row `i`: one per match, or one unmatched row. */
  function OriginsOf(l: Table, r: Table, on: seq<string>, i: nat): (o: seq<Origin>)
    ensures |o| >= 1
    ensures forall p :: 0 <= p < |o| ==> o[p].left == i
  {
    var m := Matches(l, r, on, i);
    if m == [] then [Origin(i, None)]
    else seq(|m|, q requires 0 <= q < |m| => Origin(i, Some(m[q])))
  }

  /** The output rows of the first `n` left rows. */
  function Origins(l: Table, r: Table, on: seq<string>, n: nat): (o: seq<Origin>)
    ensures forall p :: 0 <= p < |o| ==> o[p].left < n
    ensures forall p :: 0 <= p < |o| && o[p].right.Some? ==> o[p].right.value < |r.rows|
  {
    if n == 0 then [] else Origins(l, r, on, n - 1) + OriginsOf(l, r, on, n - 1)
  }

  /** The right non-key cells of a matched row, or nulls for an unmatched one. */
  function RightCells(r: Table, on: seq<string>, j: Option<nat>): (cells: seq<Cell>)
    ensures |cells| == |RestPositions(r, on)|
  {
    var rest := RestPositions(r, on);
    seq(|rest|, q requires 0 <= q < |rest| =>
      if j.Some? && j.value < |r.rows| then At(r.rows[j.value], rest[q]) else Null)
  }

  function Joined(l: Table, r: Table, on: seq<string>): Table {
    var o := Origins(l, r, on, |l.rows|);
    Table(MergedColumns(l, r, on),
      seq(|o|, p requires 0 <= p < |o| => l.rows[o[p].left] + RightCells(r, on, o[p].right)))
  }

  /**
   * `l.merge(r, on=on, how="left", validate=v)`: a key column missing from
   * either side is a KeyError, keys that are not unique where `v` demands it
   * a MergeError, and a merge on no key at all fails too.
   */
  function MergeLeft(l: Table, r: Table, on: seq<string>, v: Validate): Result<Table> {
    if on == [] then Err(NoJoinKeys)
    else match FirstMissing(l, on)
      case Some(k) => Err(MissingColumn(k))
      case None =>
        match FirstMissing(r, on)
        case Some(k) => Err(MissingColumn(k))
        case None =>
          if (v != ManyToMany && !UniqueOn(l, on)) || (v == OneToOne && !UniqueOn(r, on)) then
            Err(DuplicateKeys)
          else
            Ok(Joined(l, r, on))
  }

  // ------------------------------------------------------------- properties

  /** Output rows follow the order of the left rows. */
  lemma {:induction false} OriginsOrdered(l: Table, r: Table, on: seq<string>, n: nat)
    ensures forall p, q :: 0 <= p < q < |Origins(l, r, on, n)| ==>
      Origins(l, r, on, n)[p].left <= Origins(l, r, on, n)[q].left
  {
    if n > 0 {
      OriginsOrdered(l, r, on, n - 1);
      var prev := Origins(l, r, on, n - 1);
      var cur := OriginsOf(l, r, on, n - 1);
      var o := prev + cur;
      forall p, q | 0 <= p < q < |o|
        ensures o[p].left <= o[q].left
      {
        if q < |prev| {
          assert o[p] == prev[p] && o[q] == prev[q];
          assert prev[p].left <= prev[q].left;
        } else {
          assert o[q] == cur[q - |prev|];
          assert o[q].left == n - 1;
          if p < |prev| {
            assert o[p] == prev[p];
            assert prev[p].left < n - 1;
          } else {
            assert o[p] == cur[p - |prev|];
          }
        }
      }
    }
  }

  /**
   * A matched output row's right part carries the left row's key; an
   * unmatched row's left key matches no right row.
   */
  lemma {:induction false} OriginsSound(l: Table, r: Table, on: seq<string>, n: nat)
    ensures forall p :: 0 <= p < |Origins(l, r, on, n)| ==>
      var x := Origins(l, r, on, n)[p];
      if x.right.Some? then KeyOf(r, x.right.value, on) == KeyOf(l, x.left, on)
      else forall j :: 0 <= j < |r.rows| ==> KeyOf(r, j, on) != KeyOf(l, x.left, on)
  {
    if n > 0 {
      OriginsSound(l, r, on, n - 1);
      var prev := Origins(l, r, on, n - 1);
      var m := Matches(l, r, on, n - 1);
      var cur := OriginsOf(l, r, on, n - 1);
      var o := prev + cur;
      forall p | 0 <= p < |o|
        ensures if o[p].right.Some? then KeyOf(r, o[p].right.value, on) == KeyOf(l, o[p].left, on)
          else forall j :: 0 <= j < |r.rows| ==> KeyOf(r, j, on) != KeyOf(l, o[p].left, on)
      {
        if p < |prev| {
          assert o[p] == prev[p];
        } else if m == [] {
          assert o[p] == Origin(n - 1, None);
        } else {
          assert o[p] == Origin(n - 1, Some(m[p - |prev|]));
        }
      }
    }
  }

  /** Every left row is kept: with each right row its key matches, or once unmatched. */
  lemma {:induction false} OriginsComplete(l: Table, r: Table, on: seq<string>, n: nat, i: nat)
    requires i < n
    ensures forall j :: 0 <= j < |r.rows| && KeyOf(r, j, on) == KeyOf(l, i, on) ==>
      Origin(i, Some(j)) in Origins(l, r, on, n)
    ensures (forall j :: 0 <= j < |r.rows| ==> KeyOf(r, j, on) != KeyOf(l, i, on)) ==>
      Origin(i, None) in Origins(l, r, on, n)
  {
    forall j | 0 <= j < |r.rows| && KeyOf(r, j, on) == KeyOf(l, i, on)
      ensures Origin(i, Some(j)) in Origins(l, r, on, n)
    {
      OriginsOfHas(l, r, on, i, Some(j));
      OriginsHas(l, r, on, n, i, Origin(i, Some(j)));
    }
    if forall j :: 0 <= j < |r.rows| ==> KeyOf(r, j, on) != KeyOf(l, i, on) {
      OriginsOfHas(l, r, on, i, None);
      OriginsHas(l, r, on, n, i, Origin(i, None));
    }
  }

  /** The output rows of left row `i` are among the output rows of the first `n`. */
  lemma {:induction false} OriginsHas(l: Table, r: Table, on: seq<string>, n: nat, i: nat, x: Origin)
    requires i < n && x in OriginsOf(l, r, on, i)
    ensures x in Origins(l, r, on, n)
  {
    var prev := Origins(l, r, on, n - 1);
    var cur := OriginsOf(l, r, on, n - 1);
    if i < n - 1 {
      OriginsHas(l, r, on, n - 1, i, x);
    }
    InConcat(x, prev, cur);
  }

  lemma InConcat<T>(x: T, a: seq<T>, b: seq<T>)
    requires x in a || x in b
    ensures x in a + b
  {
  }

  /** One output row of left row `i`: a given match, or the unmatched row when there is none. */
  predicate Owed(l: Table, r: Table, on: seq<string>, i: nat, right: Option<nat>) {
    match right
    case Some(j) => j < |r.rows| && KeyOf(r, j, on) == KeyOf(l, i, on)
    case None => forall j :: 0 <= j < |r.rows| ==> KeyOf(r, j, on) != KeyOf(l, i, on)
  }

  /** The output rows of left row `i` hold each of its matches, or it unmatched. */
  lemma OriginsOfHas(l: Table, r: Table, on: seq<string>, i: nat, right: Option<nat>)
    requires Owed(l, r, on, i, right)
    ensures Origin(i, right) in OriginsOf(l, r, on, i)
  {
    var m := Matches(l, r, on, i);
    var cur := OriginsOf(l, r, on, i);
    if right.Some? {
      var q :| 0 <= q < |m| && m[q] == right.value;
      assert cur[q] == Origin(i, right);
    } else {
      MatchesNone(l, r, on, i);
      assert cur[0] == Origin(i, None);
    }
  }

  /** A left row has no match exactly when no right row carries its key. */
  lemma MatchesNone(l: Table, r: Table, on: seq<string>, i: nat)
    ensures Matches(l, r, on, i) == [] <==> forall j :: 0 <= j < |r.rows| ==> KeyOf(r, j, on) != KeyOf(l, i, on)
  {
    var m := Matches(l, r, on, i);
    if m != [] {
      assert KeyOf(r, m[0], on) == KeyOf(l, i, on);
    }
  }

  /** A left row has at most one match when the right keys are unique. */
  lemma MatchesUnique(l: Table, r: Table, on: seq<string>, i: nat)
    requires UniqueOn(r, on)
    ensures |Matches(l, r, on, i)| <= 1
  {
    var mask := seq(|r.rows|, j requires 0 <= j < |r.rows| => KeyOf(r, j, on) == KeyOf(l, i, on));
    assert Matches(l, r, on, i) == Kept(mask);
    KeptAtMostOne(mask);
  }

  /** With unique right keys, output row `p` comes from left row `p`. */
  lemma OriginsOneToOne(l: Table, r: Table, on: seq<string>, n: nat)
    requires UniqueOn(r, on)
    ensures |Origins(l, r, on, n)| == n
    ensures forall p :: 0 <= p < n ==> Origins(l, r, on, n)[p].left == p
  {
    forall i | 0 <= i < n
      ensures |OriginsOf(l, r, on, i)| == 1
    {
      MatchesUnique(l, r, on, i);
    }
    OriginsSingle(l, r, on, n);
  }

  lemma {:induction false} OriginsSingle(l: Table, r: Table, on: seq<string>, n: nat)
    requires forall i :: 0 <= i < n ==> |OriginsOf(l, r, on, i)| == 1
    ensures |Origins(l, r, on, n)| == n
    ensures forall p :: 0 <= p < n ==> Origins(l, r, on, n)[p].left == p
  {
    if n > 0 {
      OriginsSingle(l, r, on, n - 1);
      var prev := Origins(l, r, on, n - 1);
      var cur := OriginsOf(l, r, on, n - 1);
      var o := prev + cur;
      assert Origins(l, r, on, n) == o;
      forall p | 0 <= p < n
        ensures o[p].left == p
      {
        if p < n - 1 {
          assert o[p] == prev[p];
        } else {
          assert o[p] == cur[0];
        }
      }
    }
  }

  /** A merge of a rectangular left table is rectangular. */
  lemma JoinedShaped(l: Table, r: Table, on: seq<string>)
    requires l.Shaped()
    ensures Joined(l, r, on).Shaped()
  {
  }

  /**
   * A left merge whose right keys are unique (as "1:1" validates) keeps
   * exactly the left rows, in order, each extended by its match's cells.
   */
  lemma MergeKeepsLeftRows(l: Table, r: Table, on: seq<string>, v: Validate)
    requires l.Shaped()
    requires MergeLeft(l, r, on, v).Ok? && (v == OneToOne || UniqueOn(r, on))
    ensures var t := MergeLeft(l, r, on, v).value;
      && t.Shaped()
      && |t.rows| == |l.rows|
      && forall i :: 0 <= i < |l.rows| ==> t.rows[i][..|l.columns|] == l.rows[i]
  {
    OriginsOneToOne(l, r, on, |l.rows|);
    JoinedShaped(l, r, on);
    var t := Joined(l, r, on);
    forall i | 0 <= i < |l.rows|
      ensures t.rows[i][..|l.columns|] == l.rows[i]
    {
      assert t.rows[i] == l.rows[i] + RightCells(r, on, Origins(l, r, on, |l.rows|)[i].right);
    }
  }

  /** Every output row of a left merge starts with some left row. */
  lemma JoinedRowOrigin(l: Table, r: Table, on: seq<string>, p: int)
    requires l.Shaped()
    requires 0 <= p < |Joined(l, r, on).rows|
    ensures exists i :: 0 <= i < |l.rows| && |l.columns| <= |Joined(l, r, on).rows[p]| && Joined(l, r, on).rows[p][..|l.columns|] == l.rows[i]
  {
    var o := Origins(l, r, on, |l.rows|);
    var i := o[p].left;
    assert Joined(l, r, on).rows[p] == l.rows[i] + RightCells(r, on, o[p].right);
    assert Joined(l, r, on).rows[p][..|l.columns|] == l.rows[i];
  }

  /** Every left row starts some output row of a left merge, matched or not. */
  lemma JoinedKeepsLeft(l: Table, r: Table, on: seq<string>, i: int)
    requires l.Shaped()
    requires 0 <= i < |l.rows|
    ensures exists p :: 0 <= p < |Joined(l, r, on).rows| && |l.columns| <= |Joined(l, r, on).rows[p]| && Joined(l, r, on).rows[p][..|l.columns|] == l.rows[i]
  {
    var o := Origins(l, r, on, |l.rows|);
    OriginsComplete(l, r, on, |l.rows|, i);
    var x: Origin;
    if j :| 0 <= j < |r.rows| && KeyOf(r, j, on) == KeyOf(l, i, on) {
      x := Origin(i, Some(j));
    } else {
      x := Origin(i, None);
    }
    var p :| 0 <= p < |o| && o[p] == x;
    assert Joined(l, r, on).rows[p] == l.rows[i] + RightCells(r, on, x.right);
    assert Joined(l, r, on).rows[p][..|l.columns|] == l.rows[i];
  }

  /** Every right non-key column has its place among the rest positions. */
  lemma RestHas(r: Table, on: seq<string>, y: int)
    requires 0 <= y < |r.columns| && r.columns[y] !in on
    ensures exists q :: 0 <= q < |RestPositions(r, on)| && RestPositions(r, on)[q] == y
  {
    var mask := seq(|r.columns|, c requires 0 <= c < |r.columns| => r.columns[c] !in on);
    assert mask[y];
    assert RestPositions(r, on) == Kept(mask);
  }

  /** With unique right keys, left row `i`'s one output row and what it matched. */
  lemma OriginAt(l: Table, r: Table, on: seq<string>, i: int)
    requires UniqueOn(r, on) && 0 <= i < |l.rows|
    ensures var o := Origins(l, r, on, |l.rows|);
      && |o| == |l.rows| && o[i].left == i
      && (o[i].right.Some? ==> o[i].right.value < |r.rows| && KeyOf(r, o[i].right.value, on) == KeyOf(l, i, on))
      && (o[i].right.None? ==> forall j :: 0 <= j < |r.rows| ==> KeyOf(r, j, on) != KeyOf(l, i, on))
  {
    OriginsOneToOne(l, r, on, |l.rows|);
    OriginsSound(l, r, on, |l.rows|);
  }

  /** With unique right keys, output row `i` is left row `i` and its match's cells. */
  lemma JoinedRow(l: Table, r: Table, on: seq<string>, i: int)
    requires UniqueOn(r, on) && 0 <= i < |l.rows|
    ensures |Joined(l, r, on).rows| == |l.rows|
    ensures Joined(l, r, on).rows[i] == l.rows[i] + RightCells(r, on, Origins(l, r, on, |l.rows|)[i].right)
  {
    OriginAt(l, r, on, i);
  }

  /**
   * With unique right keys, column `col` of the merge `t`, added for right
   * non-key column `q`, holds on row `i` that column of the right row whose
   * key equals left row `i`'s, or null when no right row has that key.
   */
  lemma JoinedRightCell(l: Table, r: Table, on: seq<string>, t: Table, i: int, q: int, col: int)
    requires l.Shaped() && UniqueOn(r, on) && t == Joined(l, r, on)
    requires 0 <= i < |l.rows| && 0 <= q < |RestPositions(r, on)| && col == |l.columns| + q
    ensures |t.rows| == |l.rows|
    ensures var y := RestPositions(r, on)[q];
      || (exists j :: 0 <= j < |r.rows| && KeyOf(r, j, on) == KeyOf(l, i, on) && At(t.rows[i], col) == At(r.rows[j], y))
      || ((forall j :: 0 <= j < |r.rows| ==> KeyOf(r, j, on) != KeyOf(l, i, on)) && At(t.rows[i], col) == Null)
  {
    OriginAt(l, r, on, i);
    JoinedRow(l, r, on, i);
    var x := Origins(l, r, on, |l.rows|)[i];
    var cells := RightCells(r, on, x.right);
    var y := RestPositions(r, on)[q];
    assert At(t.rows[i], col) == cells[q];
    if x.right.Some? {
      var j := x.right.value;
      assert 0 <= j < |r.rows| && KeyOf(r, j, on) == KeyOf(l, i, on) && cells[q] == At(r.rows[j], y);
    } else {
      assert cells[q] == Null;
    }
  }

  /**
   * Left column names are kept or only suffixed, key columns keep their
   * names, and every further column is a suffixed-or-kept right non-key name.
   */
  lemma MergedNames(l: Table, r: Table, on: seq<string>)
    ensures var cols := MergedColumns(l, r, on);
      var rest := RestPositions(r, on);
      && |cols| == |l.columns| + |rest|
      && (forall p :: 0 <= p < |l.columns| ==> StartsWith(cols[p], l.columns[p]))
      && (forall p :: 0 <= p < |l.columns| && l.columns[p] in on ==> cols[p] == l.columns[p])
      && (forall q :: 0 <= q < |rest| ==>
            r.columns[rest[q]] !in on && StartsWith(cols[|l.columns| + q], r.columns[rest[q]]))
  {
    var cols := MergedColumns(l, r, on);
    var rest := RestPositions(r, on);
    forall p | 0 <= p < |l.columns|
      ensures StartsWith(cols[p], l.columns[p])
    {
      StartsWithConcat(l.columns[p], "_x");
      StartsWithConcat(l.columns[p], "");
      assert l.columns[p] + "" == l.columns[p];
    }
    forall q | 0 <= q < |rest|
      ensures StartsWith(cols[|l.columns| + q], r.columns[rest[q]])
    {
      StartsWithConcat(r.columns[rest[q]], "_y");
      StartsWithConcat(r.columns[rest[q]], "");
      assert r.columns[rest[q]] + "" == r.columns[rest[q]];
    }
  }

  /** A key name without "_" cannot be another name with "_x" appended. */
  lemma NotSuffixed(c: string, k: string)
    requires '_' !in k
    ensures c + "_x" != k
  {
    assert (c + "_x")[|c|] == '_';
  }

  /**
   * Under a "1:1"-style merge, a key column without "_" in its name reads
   * exactly the left table's cell in every row.
   */
  lemma MergeKeyCells(l: Table, r: Table, on: seq<string>, v: Validate, i: int, k: string)
    requires l.Shaped() && k in on && '_' !in k
    requires MergeLeft(l, r, on, v).Ok? && (v == OneToOne || UniqueOn(r, on))
    ensures Get(MergeLeft(l, r, on, v).value, i, k) == Get(l, i, k)
  {
    MergeKeepsLeftRows(l, r, on, v);
    var t := MergeLeft(l, r, on, v).value;
    if 0 <= i < |l.rows| {
      assert k in l.columns;
      var m := IndexOf(l.columns, k);
      var cols := MergedColumns(l, r, on);
      assert cols == t.columns;
      assert cols[m] == k;
      forall j | 0 <= j < m
        ensures cols[j] != k
      {
        NotSuffixed(l.columns[j], k);
      }
      assert IndexOf(cols, k) == m;
      assert t.rows[i][..|l.columns|] == l.rows[i];
      assert t.rows[i][m] == l.rows[i][m];
    }
  }
}
