/**
 * Comparable players within a role's eligible pool. The pool's feature matrix
 * is prepared here (median fill, inversion of "higher is worse" features);
 * robust scaling and cosine distance are outside the model, so the scaled
 * matrix `xs` and the distance matrix `d` arrive as inputs. Each anchor is
 * paired with its nearest other pool members, best first, with up to three
 * reason codes naming the features that differ most.
 */
module Comparables {
  import opened Seqs
  import opened Sorting
  import opened Text
  import opened Tables
  import Roles

  /** Percentile features compared for each role. */
  const RoleFeatures: seq<(string, seq<string>)> := [
    ("BPCB", ["pct_prog_passes_p90", "pct_passes_final_third_p90", "pct_pass_cmp_pct",
              "pct_long_pass_cmp_pct", "pct_tkl_int_p90", "pct_clr_p90", "pct_aerial_win_pct",
              "pct_prog_carries_p90", "pct_errors_p90"]),
    ("DLP", ["pct_passes_att_p90", "pct_pass_cmp_pct", "pct_prog_passes_p90",
             "pct_passes_final_third_p90", "pct_key_passes_p90", "pct_xa_p90", "pct_sca_p90",
             "pct_prog_carries_p90", "pct_tkl_int_p90", "pct_fouls_p90"]),
    ("WCR", ["pct_prog_carries_p90", "pct_carries_pa_p90", "pct_succ_takeons_p90",
             "pct_takeon_succ_pct", "pct_xa_p90", "pct_key_passes_p90", "pct_sca_p90",
             "pct_crosses_pa_p90", "pct_Per_90_Minutes_npxG", "pct_mis_dis_p90"])
  ]

  /** Features where a higher percentile is worse. */
  const InvertPctFeatures: set<string> := {"pct_errors_p90", "pct_fouls_p90", "pct_mis_dis_p90"}

  const RequiredColumns: seq<string> := ["player_team_season_id", "player_id", "team_id", "league", "season"]

  /** The fixed output schema. */
  const EdgeColumns: seq<string> := [
    "comparison_scope", "pct_scope", "role_id",
    "anchor_pts_id", "anchor_player_id", "anchor_team_id", "anchor_league", "anchor_season",
    "comp_pts_id", "comp_player_id", "comp_team_id", "comp_league", "comp_season",
    "different_league", "different_season",
    "distance", "rank", "reason_1", "reason_2", "reason_3"
  ]

  /** `ROLE_FEATURES.get(role_id, [])`. */
  function FeaturesOf(table: seq<(string, seq<string>)>, roleId: string): (r: seq<string>)
    ensures (forall j :: 0 <= j < |table| ==> table[j].0 != roleId) ==> r == []
  {
    if table == [] then []
    else if table[0].0 == roleId then table[0].1
    else FeaturesOf(table[1..], roleId)
  }

  // ---------------------------------------------------------------- reasons

  function Abs(x: real): real {
    if x < 0.0 then -x else x
  }

  /** `np.abs(comp_vec - anchor_vec)`. */
  function AbsDiffs(anchor: seq<real>, comp: seq<real>): (r: seq<real>)
    requires |anchor| == |comp|
    ensures |r| == |anchor|
    ensures forall f :: 0 <= f < |r| ==> r[f] == Abs(comp[f] - anchor[f])
  {
    seq(|anchor|, f requires 0 <= f < |anchor| => Abs(comp[f] - anchor[f]))
  }

  /** `np.argsort(np.abs(diffs))[::-1][:k]`: feature indices by decreasing absolute difference. */
  function ReasonIndices(anchor: seq<real>, comp: seq<real>, k: int): (r: seq<nat>)
    requires |anchor| == |comp|
    ensures |r| == PyTakeCount(|anchor|, k)
    ensures forall a :: 0 <= a < |r| ==> r[a] < |anchor|
  {
    ArgSortBelow(AbsDiffs(anchor, comp));
    PyTake(Reverse(ArgSort(AbsDiffs(anchor, comp))), k)
  }

  lemma ArgSortBelow(keys: seq<real>)
    ensures forall a :: 0 <= a < |ArgSort(keys)| ==> ArgSort(keys)[a] < |keys|
  {
    ArgSortSpec(keys);
  }

  /** `fname.replace("pct_", "")`. */
  function FeatureLabel(f: string): string {
    ReplaceAll(f, "pct_", "")
  }

  /** `f"{fname}:{sign}"`, where the sign is "higher" only for a strictly positive difference. */
  function Reason(anchor: seq<real>, comp: seq<real>, feats: seq<string>, f: nat): string
    requires |anchor| == |comp| == |feats| && f < |feats|
  {
    FeatureLabel(feats[f]) + ":" + (if comp[f] - anchor[f] > 0.0 then "higher" else "lower")
  }

  function ReasonCodes(anchor: seq<real>, comp: seq<real>, feats: seq<string>, k: int): (r: seq<string>)
    requires |anchor| == |comp| == |feats|
  {
    var idx := ReasonIndices(anchor, comp, k);
    seq(|idx|, a requires 0 <= a < |idx| => Reason(anchor, comp, feats, idx[a]))
  }

  /**
   * The reason indices: `min(k, n)` distinct features for `k >= 0`, by
   * non-increasing absolute difference, and no feature left out differs more
   * than one chosen.
   */
  lemma ReasonIndicesSpec(anchor: seq<real>, comp: seq<real>, k: int)
    requires |anchor| == |comp|
    ensures var idx := ReasonIndices(anchor, comp, k);
      var diffs := AbsDiffs(anchor, comp);
      && |idx| == PyTakeCount(|anchor|, k)
      && Distinct(idx)
      && (forall a :: 0 <= a < |idx| ==> idx[a] < |anchor|)
      && (forall a, b :: 0 <= a < b < |idx| ==> diffs[idx[a]] >= diffs[idx[b]])
      && (forall f, a :: 0 <= f < |anchor| && f !in idx && 0 <= a < |idx| ==> diffs[f] <= diffs[idx[a]])
  {
    var diffs := AbsDiffs(anchor, comp);
    var n := |anchor|;
    var order: seq<nat> := Reverse(ArgSort(diffs));
    var m := PyTakeCount(n, k);
    var idx := order[..m];
    assert ReasonIndices(anchor, comp, k) == idx;
    DescendingOrder(diffs);
    TopPrefix(order, m, Flip(ByKey(diffs)));
    forall f: nat, a | f < n && f !in idx && 0 <= a < |idx|
      ensures diffs[f] <= diffs[idx[a]]
    {
      assert f in order;
      assert Flip(ByKey(diffs))(order[a], f);
    }
  }

  /** The positions by decreasing difference: each position exactly once, largest first. */
  lemma DescendingOrder(diffs: seq<real>)
    ensures var order := Reverse(ArgSort(diffs));
      && SortedBy(order, Flip(ByKey(diffs)))
      && (forall x :: multiset(order)[x] <= 1)
      && (forall f: nat :: f < |diffs| ==> f in order)
  {
    var asc: seq<nat> := ArgSort(diffs);
    var order: seq<nat> := Reverse(asc);
    ArgSortSpec(diffs);
    ReverseMultiset(asc);
    ReverseSorted(asc, ByKey(diffs));
    forall x ensures multiset(order)[x] <= 1 {
      if x >= 0 {
        assert multiset(order)[x] == multiset(asc)[x];
      }
    }
    forall f: nat | f < |diffs|
      ensures f in order
    {
      assert multiset(asc)[f] == 1;
      assert f in multiset(order);
    }
  }

  /** Fewer than three features give fewer reasons; the rest are null. */
  lemma ReasonCount(anchor: seq<real>, comp: seq<real>, feats: seq<string>)
    requires |anchor| == |comp| == |feats|
    ensures |ReasonCodes(anchor, comp, feats, 3)| == if |feats| < 3 then |feats| else 3
  {
    ReasonIndicesSpec(anchor, comp, 3);
  }

  /** A reason says "higher" exactly when the comparable's value is strictly larger. */
  lemma ReasonSign(anchor: seq<real>, comp: seq<real>, feats: seq<string>, f: nat)
    requires |anchor| == |comp| == |feats| && f < |feats|
    ensures var r := Reason(anchor, comp, feats, f);
      var head := FeatureLabel(feats[f]) + ":";
      && r[..|head|] == head
      && (r[|head|..] == "higher" <==> comp[f] > anchor[f])
      && (r[|head|..] == "lower" <==> comp[f] <= anchor[f])
  {
    var head := FeatureLabel(feats[f]) + ":";
    var r := Reason(anchor, comp, feats, f);
    assert r == head + (if comp[f] - anchor[f] > 0.0 then "higher" else "lower");
    assert r[|head|..] == (if comp[f] - anchor[f] > 0.0 then "higher" else "lower");
  }

  /** A `pct_`-named feature is labelled by the rest of its name. */
  lemma FeatureLabelStrips(name: string)
    requires !Contains(name, "pct_")
    ensures FeatureLabel("pct_" + name) == name
  {
    var f := "pct_" + name;
    assert f[..4] == "pct_";
    assert f[4..] == name;
    ReplaceAbsent(name, "pct_", "");
  }

  /**
   * `_top_reason_codes`: append one "feature:higher|lower" string per chosen
   * feature index.
   */
  method TopReasonCodes(anchor: seq<real>, comp: seq<real>, feats: seq<string>, k: int) returns (reasons: seq<string>)
    requires |anchor| == |comp| == |feats|
    ensures reasons == ReasonCodes(anchor, comp, feats, k)
  {
    var idx := ReasonIndices(anchor, comp, k);
    ReasonIndicesSpec(anchor, comp, k);
    reasons := [];
    var a := 0;
    while a < |idx|
      invariant 0 <= a <= |idx|
      invariant |reasons| == a
      invariant forall b :: 0 <= b < a ==> reasons[b] == Reason(anchor, comp, feats, idx[b])
    {
      reasons := reasons + [Reason(anchor, comp, feats, idx[a])];
      a := a + 1;
    }
  }

  // ------------------------------------------------------------- neighbours

  /** `order = np.argsort(D[i]); order = order[order != i][:eff_top_n]`. */
  function Neighbours(dist: seq<real>, i: nat, effTopN: int): (nb: seq<nat>)
    requires i < |dist|
    ensures |nb| == PyTakeCount(|dist| - 1, effTopN)
    ensures forall r :: 0 <= r < |nb| ==> nb[r] < |dist|
  {
    NeighbourBounds(dist, i);
    var w: seq<nat> := Without(ArgSort(dist), i);
    PyTake(w, effTopN)
  }

  lemma NeighbourBounds(dist: seq<real>, i: nat)
    requires i < |dist|
    ensures var w: seq<nat> := Without(ArgSort(dist), i);
      |w| == |dist| - 1 && forall r :: 0 <= r < |w| ==> w[r] < |dist|
  {
    WithoutArgSort(dist, i);
  }

  /**
   * An anchor's neighbour list: `eff_top_n` entries (Python slicing for a
   * negative count), never the anchor itself, no repeats, by non-decreasing
   * distance, and no other pool member is strictly closer than a listed one.
   */
  lemma NeighboursSpec(dist: seq<real>, i: nat, effTopN: int)
    requires i < |dist|
    ensures var nb := Neighbours(dist, i, effTopN);
      && |nb| == PyTakeCount(|dist| - 1, effTopN)
      && i !in nb
      && Distinct(nb)
      && (forall r :: 0 <= r < |nb| ==> nb[r] < |dist|)
      && (forall a, b :: 0 <= a < b < |nb| ==> dist[nb[a]] <= dist[nb[b]])
      && (forall j, r :: 0 <= j < |dist| && j != i && j !in nb && 0 <= r < |nb| ==> dist[nb[r]] <= dist[j])
  {
    var w: seq<nat> := Without(ArgSort(dist), i);
    WithoutArgSort(dist, i);
    var m := PyTakeCount(|dist| - 1, effTopN);
    NeighboursRange(w, |dist|, i, m);
    NeighboursNearest(w, dist, i, m);
  }

  lemma NeighboursRange(w: seq<nat>, n: nat, i: nat, m: nat)
    requires m <= |w|
    requires forall x: nat :: multiset(w)[x] == if x < n && x != i then 1 else 0
    ensures i !in w[..m] && Distinct(w[..m])
    ensures forall r :: 0 <= r < m ==> w[r] < n
  {
    forall x ensures multiset(w[..m])[x] <= 1 {
      PrefixCount(w, m, x);
    }
    CountsDistinct(w[..m]);
    forall r | 0 <= r < m
      ensures w[r] < n && w[r] != i
    {
      assert w[r] in multiset(w);
    }
  }

  lemma NeighboursNearest(w: seq<nat>, dist: seq<real>, i: nat, m: nat)
    requires m <= |w| && SortedBy(w, ByKey(dist))
    requires forall r :: 0 <= r < |w| ==> w[r] < |dist|
    requires forall x: nat :: multiset(w)[x] == if x < |dist| && x != i then 1 else 0
    ensures forall a, b :: 0 <= a < b < m ==> dist[w[a]] <= dist[w[b]]
    ensures forall j, r :: 0 <= j < |dist| && j != i && j !in w[..m] && 0 <= r < m ==> dist[w[r]] <= dist[j]
  {
    forall x ensures multiset(w)[x] <= 1 {
      if x >= 0 {
        assert multiset(w)[x as nat] <= 1;
      }
    }
    TopPrefix(w, m, ByKey(dist));
    forall a, b | 0 <= a < b < m
      ensures dist[w[a]] <= dist[w[b]]
    {
      assert w[a] in multiset(w) && w[b] in multiset(w);
      assert ByKey(dist)(w[a], w[b]);
    }
    forall j: nat, r | j < |dist| && j != i && j !in w[..m] && 0 <= r < m
      ensures dist[w[r]] <= dist[j]
    {
      assert multiset(w)[j] == 1;
      assert j in w;
      assert w[r] in multiset(w);
      assert ByKey(dist)(w[r], j);
    }
  }

  /** The distance order of the other rows: sorted, each other row exactly once. */
  lemma WithoutArgSort(dist: seq<real>, i: nat)
    requires i < |dist|
    ensures var w: seq<nat> := Without(ArgSort(dist), i);
      && SortedBy(w, ByKey(dist))
      && |w| == |dist| - 1
      && (forall x: nat :: multiset(w)[x] == if x < |dist| && x != i then 1 else 0)
      && (forall r :: 0 <= r < |w| ==> w[r] < |dist|)
  {
    var order: seq<nat> := ArgSort(dist);
    ArgSortSpec(dist);
    WithoutSorted(order, i, ByKey(dist));
    WithoutSpec(order, i);
    assert multiset(order)[i] == 1;
    var w: seq<nat> := Without(order, i);
    forall r | 0 <= r < |w|
      ensures w[r] < |dist|
    {
      assert w[r] in multiset(w);
    }
  }



  // ------------------------------------------------------------------ edges

  /** The identity columns of one pool row. */
  datatype Identity = Identity(ptsId: Cell, playerId: Cell, teamId: Cell, league: Cell, season: Cell)

  datatype Edge = Edge(
    comparisonScope: string,
    pctScope: string,
    roleId: string,
    anchor: Identity,
    comp: Identity,
    differentLeague: bool,
    differentSeason: bool,
    distance: real,
    rank: nat,
    reason1: Option<string>,
    reason2: Option<string>,
    reason3: Option<string>)

  /** An output frame: its column names and its rows. */
  datatype EdgeFrame = EdgeFrame(columns: seq<string>, edges: seq<Edge>)

  /**
   * What the edge loop reads: the pool, its features, the scaled matrix `xs`
   * (pool row by feature), the distance matrix `d`, the labels copied into
   * every row and the neighbour count.
   */
  datatype Run = Run(pool: Table, feats: seq<string>, xs: seq<seq<real>>, d: seq<seq<real>>,
                     comparisonScope: string, pctScope: string, roleId: string, effTopN: int)
  {
    /** One `xs` row per pool row with one value per feature; `d` is square. */
    predicate Valid() {
      && |xs| == |d|
      && (forall i :: 0 <= i < |d| ==> |xs[i]| == |feats| && |d[i]| == |d|)
    }

    /** Rows emitted per anchor: `len(order[order != i][:eff_top_n])`. */
    function PerAnchor(): nat {
      if |d| == 0 then 0 else PyTakeCount(|d| - 1, effTopN)
    }
  }

  function IdentityOf(pool: Table, r: int): Identity {
    Identity(Get(pool, r, "player_team_season_id"), Get(pool, r, "player_id"), Get(pool, r, "team_id"),
             Get(pool, r, "league"), Get(pool, r, "season"))
  }

  /** Python's `a != b` on cell values: a missing value (NaN) differs from everything. */
  predicate Differs(a: Cell, b: Cell) {
    a.Null? || b.Null? || a != b
  }

  function ReasonAt(reasons: seq<string>, k: nat): Option<string> {
    if k < |reasons| then Some(reasons[k]) else None
  }

  /** The row for anchor `i` and comparable `j` at rank `rank`, given its reason codes. */
  function EdgeOf(run: Run, i: nat, j: nat, rank: nat, reasons: seq<string>): Edge
    requires run.Valid() && i < |run.d| && j < |run.d|
  {
    var a, c := IdentityOf(run.pool, i), IdentityOf(run.pool, j);
    Edge(run.comparisonScope, run.pctScope, run.roleId, a, c,
         Differs(a.league, c.league), Differs(a.season, c.season),
         run.d[i][j], rank, ReasonAt(reasons, 0), ReasonAt(reasons, 1), ReasonAt(reasons, 2))
  }

  /** The row emitted for anchor `i`, comparable `j`, at rank `rank`. */
  function MakeEdge(run: Run, i: nat, j: nat, rank: nat): Edge
    requires run.Valid() && i < |run.d| && j < |run.d|
  {
    EdgeOf(run, i, j, rank, ReasonCodes(run.xs[i], run.xs[j], run.feats, 3))
  }

  /** The edges of anchor `i`, ranked 1, 2, ... */
  function AnchorEdges(run: Run, i: nat): (es: seq<Edge>)
    requires run.Valid() && i < |run.d|
    ensures |es| == run.PerAnchor()
  {
    var nb := Neighbours(run.d[i], i, run.effTopN);
    seq(|nb|, r requires 0 <= r < |nb| => MakeEdge(run, i, nb[r], r + 1))
  }

  /** The edges of anchors `0 .. n - 1`, anchor by anchor. */
  function AllEdges(run: Run, n: nat): seq<Edge>
    requires run.Valid() && n <= |run.d|
  {
    if n == 0 then []
    else AllEdges(run, n - 1) + AnchorEdges(run, n - 1)
  }

  /** Each anchor gets `eff_top_n` rows when that count is within the pool. */
  lemma AnchorEdgesCount(run: Run, i: nat)
    requires run.Valid() && i < |run.d|
    ensures 0 <= run.effTopN <= |run.d| - 1 ==> |AnchorEdges(run, i)| == run.effTopN
    ensures run.effTopN >= |run.d| - 1 ==> |AnchorEdges(run, i)| == |run.d| - 1
  {
  }

  /**
   * Row `r` of anchor `i`: rank `r + 1`, the anchor's identity, a comparable
   * that is another pool row, its distance, and the two flags true exactly
   * when league / season differ.
   */
  lemma AnchorEdgeAt(run: Run, i: nat, r: nat)
    requires run.Valid() && i < |run.d| && r < run.PerAnchor()
    ensures var e := AnchorEdges(run, i)[r];
      var j := Neighbours(run.d[i], i, run.effTopN)[r];
      && j != i && j < |run.d|
      && e.rank == r + 1
      && e.anchor == IdentityOf(run.pool, i)
      && e.comp == IdentityOf(run.pool, j)
      && e.distance == run.d[i][j]
      && (e.differentLeague <==> Differs(e.anchor.league, e.comp.league))
      && (e.differentSeason <==> Differs(e.anchor.season, e.comp.season))
      && e.comparisonScope == run.comparisonScope && e.pctScope == run.pctScope && e.roleId == run.roleId
  {
    NeighboursSpec(run.d[i], i, run.effTopN);
    var nb := Neighbours(run.d[i], i, run.effTopN);
    assert nb[r] in nb;
  }

  /** An anchor's rows come closest first. */
  lemma AnchorEdgesOrdered(run: Run, i: nat)
    requires run.Valid() && i < |run.d|
    ensures var es := AnchorEdges(run, i);
      forall a, b :: 0 <= a < b < |es| ==> es[a].distance <= es[b].distance
  {
    NeighboursSpec(run.d[i], i, run.effTopN);
    var nb := Neighbours(run.d[i], i, run.effTopN);
    var es := AnchorEdges(run, i);
    forall a | 0 <= a < |es|
      ensures es[a].distance == run.d[i][nb[a]]
    {
    }
  }

  /** With missing values, the flags follow NaN comparison: null on either side counts as different. */
  lemma FlagsOnMissing(run: Run, i: nat, r: nat)
    requires run.Valid() && i < |run.d| && r < run.PerAnchor()
    requires Get(run.pool, i, "league").Null?
    ensures AnchorEdges(run, i)[r].differentLeague
  {
    AnchorEdgeAt(run, i, r);
  }

  lemma {:induction false} AllEdgesCount(run: Run, n: nat)
    requires run.Valid() && n <= |run.d|
    ensures |AllEdges(run, n)| == n * run.PerAnchor()
  {
    if n > 0 {
      AllEdgesCount(run, n - 1);
      var c := run.PerAnchor();
      assert (n - 1) * c + c == n * c;
    }
  }

  lemma BlockBound(i: nat, r: nat, c: nat, n: nat)
    requires i < n && r < c
    ensures i * c + r < n * c && (i + 1) * c <= n * c && i * c + r < (i + 1) * c
  {
    assert (i + 1) * c <= n * c;
  }

  /** Anchors appear in pool order: rank `r + 1` of anchor `i` is row `i * count + r`. */
  lemma {:induction false} AllEdgesAt(run: Run, n: nat, i: nat, r: nat)
    requires run.Valid() && n <= |run.d|
    requires i < n && r < run.PerAnchor()
    ensures i * run.PerAnchor() + r < |AllEdges(run, n)|
    ensures AllEdges(run, n)[i * run.PerAnchor() + r] == AnchorEdges(run, i)[r]
  {
    var c := run.PerAnchor();
    var init := AllEdges(run, n - 1);
    assert AllEdges(run, n) == init + AnchorEdges(run, n - 1);
    AllEdgesCount(run, n - 1);
    BlockBound(i, r, c, n);
    if i < n - 1 {
      AllEdgesAt(run, n - 1, i, r);
      BlockBound(i, r, c, n - 1);
    } else {
      assert i * c == |init|;
    }
  }

  /** One anchor's inner loop: append an edge per neighbour, ranks from 1. */
  method EmitAnchor(run: Run, i: nat) returns (rows: seq<Edge>)
    requires run.Valid() && i < |run.d|
    ensures rows == AnchorEdges(run, i)
  {
    var order := Neighbours(run.d[i], i, run.effTopN);
    ghost var es := AnchorEdges(run, i);
    assert |es| == |order|;
    rows := [];
    var r := 0;
    while r < |order|
      invariant 0 <= r <= |order|
      invariant rows == es[..r]
    {
      var j := order[r];
      var reasons := TopReasonCodes(run.xs[i], run.xs[j], run.feats, 3);
      assert es[r] == EdgeOf(run, i, j, r + 1, reasons);
      assert es[..r + 1] == es[..r] + [es[r]];
      rows := rows + [EdgeOf(run, i, j, r + 1, reasons)];
      r := r + 1;
    }
    assert es[..r] == es;
  }

  /** The outer loop over anchors. */
  method EmitEdges(run: Run) returns (rows: seq<Edge>)
    requires run.Valid()
    ensures rows == AllEdges(run, |run.d|)
  {
    rows := [];
    var i := 0;
    while i < |run.d|
      invariant 0 <= i <= |run.d|
      invariant rows == AllEdges(run, i)
    {
      var block := EmitAnchor(run, i);
      AllEdgesStep(run, i);
      rows := rows + block;
      i := i + 1;
    }
  }

  /** One more anchor appends its own edges. */
  lemma AllEdgesStep(run: Run, i: nat)
    requires run.Valid() && i < |run.d|
    ensures AllEdges(run, i + 1) == AllEdges(run, i) + AnchorEdges(run, i)
  {
  }

  // --------------------------------------------------------------- the pool

  /** The feature values of one column, numeric or missing (`pd.to_numeric(errors="coerce")`). */
  function ColumnValues(pool: Table, f: string): (r: seq<Option<real>>)
    ensures |r| == |pool.rows|
    ensures forall k :: 0 <= k < |r| ==> r[k] == AsReal(Get(pool, k, f))
  {
    seq(|pool.rows|, k requires 0 <= k < |pool.rows| => AsReal(Get(pool, k, f)))
  }

  /** The non-missing values, in order. */
  function Present(col: seq<Option<real>>): (r: seq<real>)
    ensures forall v :: v in r <==> Some(v) in col
  {
    if col == [] then []
    else
      var rest := Present(col[1..]);
      assert forall v :: Some(v) in col <==> Some(v) == col[0] || Some(v) in col[1..];
      if col[0].Some? then [col[0].value] + rest else rest
  }

  /** `X.fillna(X.median())` for one cell: a column without any value stays missing. */
  function Filled(col: seq<Option<real>>, k: nat): Cell
    requires k < |col|
  {
    if col[k].Some? then Num(col[k].value)
    else
      var vals := Present(col);
      if vals == [] then Null else Num(Median(vals))
  }

  /** `X[f] = 100.0 - X[f]` for an inverted feature. */
  function Oriented(f: string, c: Cell): Cell {
    if f in InvertPctFeatures && c.Num? then Num(100.0 - c.x) else c
  }

  /** The prepared feature matrix, pool row by feature. */
  function FeatureMatrix(pool: Table, feats: seq<string>): (x: seq<seq<Cell>>)
    ensures |x| == |pool.rows|
    ensures forall k :: 0 <= k < |x| ==> |x[k]| == |feats|
  {
    seq(|pool.rows|, k requires 0 <= k < |pool.rows| =>
      seq(|feats|, f requires 0 <= f < |feats| => Oriented(feats[f], Filled(ColumnValues(pool, feats[f]), k))))
  }

  /**
   * The prepared matrix: a value present in the pool is kept (as `100 - v` for
   * an inverted feature); a missing one becomes the column median, which lies
   * within the column's range; only a column with no value at all stays missing.
   */
  lemma FeatureMatrixSpec(pool: Table, feats: seq<string>, k: nat, f: nat, lo: real, hi: real)
    requires k < |pool.rows| && f < |feats|
    requires forall v :: v in Present(ColumnValues(pool, feats[f])) ==> lo <= v <= hi
    ensures var col := ColumnValues(pool, feats[f]);
      var x := FeatureMatrix(pool, feats)[k][f];
      var inv := feats[f] in InvertPctFeatures;
      && (x.Num? <==> Present(col) != [])
      && (col[k].Some? ==> x == Num(if inv then 100.0 - col[k].value else col[k].value))
      && (x.Num? ==> if inv then 100.0 - hi <= x.x <= 100.0 - lo else lo <= x.x <= hi)
  {
    var col := ColumnValues(pool, feats[f]);
    if col[k].Some? {
      assert col[k].value in Present(col);
    } else if Present(col) != [] {
      MedianWithin(Present(col), lo, hi);
    }
  }

  /** Fill then invert, one feature column at a time. */
  method PrepareMatrix(pool: Table, feats: seq<string>) returns (x: seq<seq<Cell>>)
    ensures x == FeatureMatrix(pool, feats)
  {
    x := seq(|pool.rows|, k requires 0 <= k < |pool.rows| =>
      seq(|feats|, f requires 0 <= f < |feats| => Filled(ColumnValues(pool, feats[f]), k)));
    var g := 0;
    while g < |feats|
      invariant 0 <= g <= |feats|
      invariant |x| == |pool.rows|
      invariant forall k :: 0 <= k < |x| ==> |x[k]| == |feats|
      invariant forall k, f :: 0 <= k < |x| && 0 <= f < |feats| ==>
        x[k][f] == if f < g then Oriented(feats[f], Filled(ColumnValues(pool, feats[f]), k))
                   else Filled(ColumnValues(pool, feats[f]), k)
    {
      if feats[g] in InvertPctFeatures {
        x := seq(|x|, k requires 0 <= k < |x| => x[k][g := Oriented(feats[g], x[k][g])]);
      }
      g := g + 1;
    }
    var spec := FeatureMatrix(pool, feats);
    forall k | 0 <= k < |x|
      ensures x[k] == spec[k]
    {
      assert |x[k]| == |spec[k]|;
      forall f | 0 <= f < |feats|
        ensures x[k][f] == spec[k][f]
      {
      }
    }
  }

  /** Everything fixed before scaling: pool, features, neighbour count, feature matrix. */
  datatype Prep = Prep(pool: Table, feats: seq<string>, effTopN: int, x: seq<seq<Cell>>)

  /** The guards and the pool; `None` is the early return of an empty frame. */
  function PrepareComparables(df: Table, roleId: string, topN: int): (r: Option<Prep>)
    requires df.Shaped()
    ensures r.Some? ==> r.value.pool.Shaped() && |r.value.pool.rows| >= 2
  {
    var scoreCol := Roles.ScoreName(roleId);
    if scoreCol !in df.columns || exists c :: c in RequiredColumns && c !in df.columns then None
    else
      var feats := PresentColumns(FeaturesOf(RoleFeatures, roleId), df.columns);
      if feats == [] then None
      else
        var pool := Where(df, NotNullMask(df, scoreCol));
        if |pool.rows| < 2 then None
        else
          var n := |pool.rows|;
          Some(Prep(pool, feats, if topN < n - 1 then topN else n - 1, FeatureMatrix(pool, feats)))
  }

  /**
   * The result is empty exactly when the score or an identity column is
   * missing, the role has no feature column in the frame, or fewer than two
   * rows have a score; otherwise the pool is the scored rows in order and
   * `eff_top_n = min(top_n, |pool| - 1)`.
   */
  lemma PrepareSpec(df: Table, roleId: string, topN: int)
    requires df.Shaped()
    ensures var scoreCol := Roles.ScoreName(roleId);
      var r := PrepareComparables(df, roleId, topN);
      && (r.None? <==>
            || scoreCol !in df.columns
            || (exists c :: c in RequiredColumns && c !in df.columns)
            || (forall f :: f in FeaturesOf(RoleFeatures, roleId) ==> f !in df.columns)
            || |Kept(NotNullMask(df, scoreCol))| < 2)
      && (r.Some? ==>
            && r.value.pool.columns == df.columns
            && (forall k :: 0 <= k < |r.value.pool.rows| ==> Get(r.value.pool, k, scoreCol) != Null)
            && (forall k :: 0 <= k < |df.rows| && Get(df, k, scoreCol) != Null ==> k in Kept(NotNullMask(df, scoreCol)))
            && r.value.effTopN == (if topN < |r.value.pool.rows| - 1 then topN else |r.value.pool.rows| - 1)
            && r.value.effTopN <= |r.value.pool.rows| - 1)
  {
    var scoreCol := Roles.ScoreName(roleId);
    var all := FeaturesOf(RoleFeatures, roleId);
    var feats := PresentColumns(all, df.columns);
    assert feats == [] <==> forall f :: f in all ==> f !in df.columns by {
      if feats != [] {
        assert feats[0] in feats;
      }
    }
    var r := PrepareComparables(df, roleId, topN);
    if r.Some? {
      var mask := NotNullMask(df, scoreCol);
      forall k | 0 <= k < |r.value.pool.rows|
        ensures Get(r.value.pool, k, scoreCol) != Null
      {
        WhereGet(df, mask, k, scoreCol);
      }
    }
  }

  /** The frame a run returns: the schema always, so also when no edge is emitted. */
  function Frame(edges: seq<Edge>): (r: EdgeFrame)
    ensures r.columns == EdgeColumns && r.edges == edges
  {
    EdgeFrame(EdgeColumns, edges)
  }

  /**
   * `pd.DataFrame(rows)` as written: its columns come from the row dicts, so
   * an empty list of rows gives a frame with no columns at all.
   */
  function FrameAsWritten(edges: seq<Edge>): EdgeFrame {
    if edges == [] then EdgeFrame([], []) else EdgeFrame(EdgeColumns, edges)
  }

  /**
   * With no neighbour per anchor (`top_n = 0`, or a negative `top_n` that
   * slices every list empty) the guards pass but the frame as written has
   * no columns, unlike every guarded empty result.
   */
  lemma NoEdgesLoseSchema(run: Run)
    requires run.Valid() && |run.d| >= 2 && run.PerAnchor() == 0
    ensures FrameAsWritten(AllEdges(run, |run.d|)).columns == []
    ensures Frame(AllEdges(run, |run.d|)).columns == EdgeColumns
  {
    AllEdgesCount(run, |run.d|);
  }

  /** A concrete instance: a pool of two scored rows, one feature with a value on each row, and `top_n = 0`. */
  lemma NoEdgesExample()
    ensures var pool := Table(["player_team_season_id", "pct_xa_p90"], [[Str("a"), Num(40.0)], [Str("b"), Num(60.0)]]);
      var run := Run(pool, ["pct_xa_p90"], [[0.0], [1.0]], [[0.0, 1.0], [1.0, 0.0]],
                     "league_season", "league_season", "DLP", 0);
      && run.Valid()
      && FrameAsWritten(AllEdges(run, 2)).columns == []
      && Frame(AllEdges(run, 2)).columns == EdgeColumns
  {
    var pool := Table(["player_team_season_id", "pct_xa_p90"], [[Str("a"), Num(40.0)], [Str("b"), Num(60.0)]]);
    var run := Run(pool, ["pct_xa_p90"], [[0.0], [1.0]], [[0.0, 1.0], [1.0, 0.0]],
                   "league_season", "league_season", "DLP", 0);
    NoEdgesLoseSchema(run);
  }

  /** The run over a prepared pool, given the scaled and distance matrices computed from its features. */
  function RunOf(p: Prep, roleId: string, comparisonScope: string, pctScope: string,
                 xs: seq<seq<real>>, d: seq<seq<real>>): Run {
    Run(p.pool, p.feats, xs, d, comparisonScope, pctScope, roleId, p.effTopN)
  }

  /** A prepared matrix without a missing cell, as `cosine_distances` demands of its input. */
  predicate Complete(x: seq<seq<Cell>>) {
    forall k, f :: 0 <= k < |x| && 0 <= f < |x[k]| ==> x[k][f].Num?
  }

  /** A filled cell holds a value exactly when its column holds one somewhere. */
  lemma FilledNum(col: seq<Option<real>>, k: nat)
    requires k < |col|
    ensures Filled(col, k).Num? <==> Present(col) != []
  {
    if col[k].Some? {
      assert col[k].value in Present(col);
    }
  }

  /**
   * Scaling and distances see a missing value exactly when some feature
   * column has no numeric value in the pool: the median fill leaves such a
   * column empty and fills every other one.
   */
  lemma CompleteSpec(pool: Table, feats: seq<string>)
    requires |pool.rows| >= 1
    ensures Complete(FeatureMatrix(pool, feats)) <==>
      forall f :: 0 <= f < |feats| ==> Present(ColumnValues(pool, feats[f])) != []
  {
    var x: seq<seq<Cell>> := FeatureMatrix(pool, feats);
    forall k: int, f: int | 0 <= k < |x| && 0 <= f < |feats|
      ensures x[k][f].Num? <==> Present(ColumnValues(pool, feats[f])) != []
    {
      FilledNum(ColumnValues(pool, feats[f]), k);
    }
    if !Complete(x) {
      var k: int, f: int :| 0 <= k < |x| && 0 <= f < |x[k]| && !x[k][f].Num?;
      assert Present(ColumnValues(pool, feats[f])) == [];
    } else {
      forall f: int | 0 <= f < |feats|
        ensures Present(ColumnValues(pool, feats[f])) != []
      {
        assert x[0][f].Num?;
      }
    }
  }

  /**
   * `build_fact_comparables`, with the scaled matrix `xs` and the distance
   * matrix `d` computed outside from the prepared feature matrix. Every
   * result carries the fixed schema; a feature column with no numeric value
   * in the pool leaves a NaN that `cosine_distances` rejects.
   */
  method BuildFactComparables(df: Table, roleId: string, topN: int, comparisonScope: string, pctScope: string,
                              xs: seq<seq<real>>, d: seq<seq<real>>) returns (out: Result<EdgeFrame>)
    requires df.Shaped()
    requires PrepareComparables(df, roleId, topN).Some? ==>
      var p := PrepareComparables(df, roleId, topN).value;
      |d| == |p.pool.rows| && RunOf(p, roleId, comparisonScope, pctScope, xs, d).Valid()
    ensures out.Ok? ==> out.value.columns == EdgeColumns
    ensures out.Err? ==> out.error == NonFinite
    ensures PrepareComparables(df, roleId, topN).None? ==> out == Ok(Frame([]))
    ensures PrepareComparables(df, roleId, topN).Some? ==>
      var p := PrepareComparables(df, roleId, topN).value;
      && (out.Err? <==> exists f :: 0 <= f < |p.feats| && Present(ColumnValues(p.pool, p.feats[f])) == [])
      && (out.Ok? ==> out.value.edges == AllEdges(RunOf(p, roleId, comparisonScope, pctScope, xs, d), |d|))
  {
    var prep := PrepareComparables(df, roleId, topN);
    if prep.None? {
      return Ok(Frame([]));
    }
    var p := prep.value;
    var x := PrepareMatrix(p.pool, p.feats);
    CompleteSpec(p.pool, p.feats);
    if !Complete(x) {
      return Err(NonFinite);
    }
    var rows := EmitEdges(RunOf(p, roleId, comparisonScope, pctScope, xs, d));
    return Ok(Frame(rows));
  }
}
