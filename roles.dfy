/**
 * Role scoring. A role names a position bucket, must-have thresholds on raw
 * columns and weights on percentile features; a row's role score is the
 * weighted mean of its feature percentiles (inverted for negative features),
 * and null for a row that is not eligible for the role.
 */
module Roles {
  import opened Tables
  import opened Percentiles

  /** One entry of the role configuration. */
  datatype Role = Role(
    roleId: string,
    bucket: string,
    weights: seq<(string, real)>,
    negatives: set<string>,
    mustHave: map<string, real>)

  /** Must-have key and the raw column it constrains, in the order they are applied. */
  const MustHaveChecks: seq<(string, string)> := [
    ("min_minutes", "minutes"),
    ("pass_cmp_pct_min", "pass_cmp_pct"),
    ("prog_passes_p90_min", "prog_passes_p90"),
    ("aerial_win_pct_min", "aerial_win_pct"),
    ("passes_att_p90_min", "passes_att_p90"),
    ("prog_carries_p90_min", "prog_carries_p90"),
    ("succ_takeons_p90_min", "succ_takeons_p90"),
    ("xa_p90_min", "xa_p90")
  ]

  /** Check `j` applies: its key is configured, and the aerial check only when its column exists. */
  predicate Active(df: Table, mh: map<string, real>, j: int)
    requires 0 <= j < |MustHaveChecks|
  {
    var (key, col) := MustHaveChecks[j];
    key in mh && (key != "aerial_win_pct_min" || col in df.columns)
  }

  /** Row `i` meets every applicable threshold (a null fails; text, where pandas raises TypeError, is read as failing too). */
  predicate PassesMustHaves(df: Table, mh: map<string, real>, i: int) {
    forall j :: 0 <= j < |MustHaveChecks| && Active(df, mh, j) ==>
      AtLeast(Get(df, i, MustHaveChecks[j].1), mh[MustHaveChecks[j].0])
  }

  /** The column of the first applicable check, from check `j` on, whose column is missing. */
  function MustHaveError(df: Table, mh: map<string, real>, j: nat): (r: Option<string>)
    requires j <= |MustHaveChecks|
    ensures r.None? <==> forall l :: j <= l < |MustHaveChecks| && Active(df, mh, l) ==> MustHaveChecks[l].1 in df.columns
    ensures r.Some? ==> r.value !in df.columns
    decreases |MustHaveChecks| - j
  {
    if j == |MustHaveChecks| then None
    else if Active(df, mh, j) && MustHaveChecks[j].1 !in df.columns then Some(MustHaveChecks[j].1)
    else MustHaveError(df, mh, j + 1)
  }

  /**
   * `apply_must_haves`: start from all-true and narrow the mask by each
   * applicable threshold; a configured check on a missing column is a KeyError.
   */
  method ApplyMustHaves(df: Table, mh: map<string, real>) returns (r: Result<seq<bool>>)
    ensures r.Err? <==> MustHaveError(df, mh, 0).Some?
    ensures r.Err? ==> r.error == MissingColumn(MustHaveError(df, mh, 0).value)
    ensures r.Ok? ==> |r.value| == |df.rows| && forall i :: 0 <= i < |df.rows| ==> (r.value[i] <==> PassesMustHaves(df, mh, i))
  {
    var mask := seq(|df.rows|, i => true);
    var j := 0;
    while j < |MustHaveChecks|
      invariant 0 <= j <= |MustHaveChecks|
      invariant MustHaveError(df, mh, 0) == MustHaveError(df, mh, j)
      invariant |mask| == |df.rows|
      invariant forall i :: 0 <= i < |df.rows| ==>
        (mask[i] <==> forall l :: 0 <= l < j && Active(df, mh, l) ==> AtLeast(Get(df, i, MustHaveChecks[l].1), mh[MustHaveChecks[l].0]))
    {
      var (key, col) := MustHaveChecks[j];
      if key in mh && (key != "aerial_win_pct_min" || col in df.columns) {
        if col !in df.columns {
          return Err(MissingColumn(col));
        }
        var threshold := mh[key];
        mask := seq(|mask|, i requires 0 <= i < |mask| => mask[i] && AtLeast(Get(df, i, col), threshold));
      }
      j := j + 1;
    }
    return Ok(mask);
  }

  /** Keys outside the eight checks play no part in eligibility. */
  lemma UnknownMustHavesIgnored(df: Table, mh: map<string, real>, extra: string, threshold: real, i: int)
    requires forall j :: 0 <= j < |MustHaveChecks| ==> MustHaveChecks[j].0 != extra
    ensures PassesMustHaves(df, mh[extra := threshold], i) == PassesMustHaves(df, mh, i)
    ensures MustHaveError(df, mh[extra := threshold], 0) == MustHaveError(df, mh, 0)
  {
    var mh' := mh[extra := threshold];
    assert forall j :: 0 <= j < |MustHaveChecks| ==> (Active(df, mh', j) <==> Active(df, mh, j));
    MustHaveErrorSame(df, mh, mh', 0);
  }

  lemma {:induction false} MustHaveErrorSame(df: Table, mh: map<string, real>, mh': map<string, real>, j: nat)
    requires j <= |MustHaveChecks|
    requires forall l :: 0 <= l < |MustHaveChecks| ==> (Active(df, mh', l) <==> Active(df, mh, l))
    ensures MustHaveError(df, mh', j) == MustHaveError(df, mh, j)
    decreases |MustHaveChecks| - j
  {
    if j < |MustHaveChecks| {
      MustHaveErrorSame(df, mh, mh', j + 1);
    }
  }

  /** The aerial threshold is ignored when the frame has no `aerial_win_pct` column. */
  lemma AerialSkippedWhenAbsent(df: Table, mh: map<string, real>, i: int)
    requires "aerial_win_pct" !in df.columns
    ensures PassesMustHaves(df, mh, i) == PassesMustHaves(df, mh - {"aerial_win_pct_min"}, i)
    ensures MustHaveError(df, mh, 0) == MustHaveError(df, mh - {"aerial_win_pct_min"}, 0)
  {
    var mh' := mh - {"aerial_win_pct_min"};
    forall j | 0 <= j < |MustHaveChecks|
      ensures Active(df, mh', j) <==> Active(df, mh, j)
    {
      if MustHaveChecks[j].0 == "aerial_win_pct_min" {
        assert j == 3;
      }
    }
    MustHaveErrorSame(df, mh, mh', 0);
  }

  /** Combined config keys and the canonical feature each stands for. */
  const Aliases: seq<(string, string)> := [
    ("long_pass_cmp_p90_or_pct", "long_pass_cmp_pct"),
    ("aerial_win_pct_or_won_p90", "aerial_win_pct"),
    ("errors_or_dispossessed_neg", "errors_p90"),
    ("dispossessed_miscontrols_neg", "mis_dis_p90"),
    ("fouls_committed_neg", "fouls_p90")
  ]

  /** The first alias entry for `k`, or `k` itself. */
  function Resolve(table: seq<(string, string)>, k: string): string {
    if table == [] then k
    else if table[0].0 == k then table[0].1
    else Resolve(table[1..], k)
  }

  /** The percentile feature a weight key refers to. */
  function Alias(k: string): string {
    Resolve(Aliases, k)
  }

  /** A weight counts only when its percentile column exists. */
  predicate Included(t: Table, k: string) {
    PctName(Alias(k)) in t.columns
  }

  /** The percentile a weight reads for row `i`, as `100 - v` for a negative key; null stays null. */
  function Contribution(t: Table, i: int, k: string, negatives: set<string>): (r: Cell)
    ensures r.Num? <==> Get(t, i, PctName(Alias(k))).Num?
  {
    var v := Get(t, i, PctName(Alias(k)));
    if !v.Num? then Null
    else if k in negatives then Num(100.0 - v.x)
    else v
  }

  /** `score += w * val` on one row: a null anywhere makes the sum null. */
  function AddWeighted(acc: Cell, w: real, v: Cell): (r: Cell)
    ensures r.Num? <==> acc.Num? && v.Num?
  {
    if acc.Num? && v.Num? then Num(acc.x + w * v.x) else Null
  }

  /** One weight applied to row `i`'s running sum; a skipped weight leaves it. */
  function SumStep(t: Table, i: int, acc: Cell, entry: (string, real), negatives: set<string>): Cell {
    if Included(t, entry.0) then AddWeighted(acc, entry.1, Contribution(t, i, entry.0, negatives)) else acc
  }

  /** One weight applied to the running `wsum`. */
  function TotalStep(t: Table, acc: real, entry: (string, real)): real {
    if Included(t, entry.0) then acc + entry.1 else acc
  }

  /** The running weighted sum of row `i` over the given weights. */
  function WeightedSum(t: Table, i: int, weights: seq<(string, real)>, negatives: set<string>): Cell {
    if weights == [] then Num(0.0)
    else SumStep(t, i, WeightedSum(t, i, weights[..|weights| - 1], negatives), weights[|weights| - 1], negatives)
  }

  /** The running `wsum` over the given weights. */
  function WeightTotal(t: Table, weights: seq<(string, real)>): real {
    if weights == [] then 0.0
    else TotalStep(t, WeightTotal(t, weights[..|weights| - 1]), weights[|weights| - 1])
  }

  /** Same bucket and every must-have met. */
  predicate Eligible(t: Table, i: int, role: Role) {
    Get(t, i, "position_bucket") == Str(role.bucket) && PassesMustHaves(t, role.mustHave, i)
  }

  /** `(score / wsum).where(elig, pd.NA)` for row `i`; a zero total weight gives null. */
  function RoleScore(t: Table, i: int, role: Role): (r: Cell)
    ensures r.Num? ==> Eligible(t, i, role)
    ensures r.Num? ==> WeightTotal(t, role.weights) != 0.0
  {
    var s := WeightedSum(t, i, role.weights, role.negatives);
    var wsum := WeightTotal(t, role.weights);
    if !Eligible(t, i, role) || !s.Num? || wsum == 0.0 then Null
    else Num(s.x / wsum)
  }

  /** Every contribution of an included weight lies in `[lo, hi]`. */
  predicate ContributionsWithin(t: Table, i: int, weights: seq<(string, real)>, negatives: set<string>, lo: real, hi: real) {
    forall j :: 0 <= j < |weights| && Included(t, weights[j].0) ==>
      var c := Contribution(t, i, weights[j].0, negatives);
      c.Num? && lo <= c.x <= hi
  }

  /** Adding `w * c` for `w > 0` and `c` in `[lo, hi]` keeps the sum between `lo` and `hi` times the total. */
  lemma StepBounds(s: real, total: real, w: real, c: real, lo: real, hi: real)
    requires w > 0.0 && lo <= c <= hi
    requires lo * total <= s <= hi * total
    ensures lo * (total + w) <= s + w * c <= hi * (total + w)
  {
    assert lo * w <= w * c <= hi * w;
  }

  /** The running sum lies between `lo` and `hi` times the running total. */
  predicate SumWithin(t: Table, i: int, weights: seq<(string, real)>, negatives: set<string>, lo: real, hi: real) {
    var s := WeightedSum(t, i, weights, negatives);
    s.Num? && lo * WeightTotal(t, weights) <= s.x <= hi * WeightTotal(t, weights) && WeightTotal(t, weights) >= 0.0
  }

  lemma SumWithinStep(t: Table, i: int, init: seq<(string, real)>, e: (string, real), negatives: set<string>, lo: real, hi: real)
    requires SumWithin(t, i, init, negatives, lo, hi)
    requires e.1 > 0.0
    requires Included(t, e.0) ==> Contribution(t, i, e.0, negatives).Num? && lo <= Contribution(t, i, e.0, negatives).x <= hi
    ensures SumWithin(t, i, init + [e], negatives, lo, hi)
  {
    SumSnoc(t, i, init, e, negatives);
    var s0 := WeightedSum(t, i, init, negatives).x;
    var t0 := WeightTotal(t, init);
    if Included(t, e.0) {
      StepBounds(s0, t0, e.1, Contribution(t, i, e.0, negatives).x, lo, hi);
    }
  }

  lemma ContributionsWithinPrefix(t: Table, i: int, weights: seq<(string, real)>, negatives: set<string>, lo: real, hi: real)
    requires weights != []
    requires ContributionsWithin(t, i, weights, negatives, lo, hi)
    ensures ContributionsWithin(t, i, weights[..|weights| - 1], negatives, lo, hi)
  {
    var init := weights[..|weights| - 1];
    forall j | 0 <= j < |init| && Included(t, init[j].0)
      ensures Contribution(t, i, init[j].0, negatives).Num?
      ensures lo <= Contribution(t, i, init[j].0, negatives).x <= hi
    {
      assert init[j] == weights[j];
    }
  }

  lemma {:induction false} WeightedSumBounds(t: Table, i: int, weights: seq<(string, real)>, negatives: set<string>, lo: real, hi: real)
    requires forall j :: 0 <= j < |weights| ==> weights[j].1 > 0.0
    requires ContributionsWithin(t, i, weights, negatives, lo, hi)
    ensures SumWithin(t, i, weights, negatives, lo, hi)
  {
    if weights != [] {
      var init := weights[..|weights| - 1];
      var e := weights[|weights| - 1];
      ContributionsWithinPrefix(t, i, weights, negatives, lo, hi);
      WeightedSumBounds(t, i, init, negatives, lo, hi);
      SumWithinStep(t, i, init, e, negatives, lo, hi);
      assert init + [e] == weights;
    }
  }

  /**
   * With positive weights, an eligible score is a weighted mean: it lies
   * between the smallest and largest contribution, so within 0..100 whenever
   * the percentiles are.
   */
  lemma RoleScoreWithin(t: Table, i: int, role: Role, lo: real, hi: real)
    requires forall j :: 0 <= j < |role.weights| ==> role.weights[j].1 > 0.0
    requires ContributionsWithin(t, i, role.weights, role.negatives, lo, hi)
    requires RoleScore(t, i, role).Num?
    ensures lo <= RoleScore(t, i, role).x <= hi
  {
    WeightedSumBounds(t, i, role.weights, role.negatives, lo, hi);
    var s := WeightedSum(t, i, role.weights, role.negatives).x;
    var wsum := WeightTotal(t, role.weights);
    assert wsum > 0.0;
    assert lo <= s / wsum by {
      assert lo * wsum <= s;
    }
    assert s / wsum <= hi by {
      assert s <= hi * wsum;
    }
  }

  /** An ineligible row scores null; an eligible one scores whenever its inputs are present. */
  lemma RoleScoreEligibility(t: Table, i: int, role: Role)
    ensures !Eligible(t, i, role) ==> RoleScore(t, i, role) == Null
    ensures Eligible(t, i, role) && WeightedSum(t, i, role.weights, role.negatives).Num? && WeightTotal(t, role.weights) != 0.0
      ==> RoleScore(t, i, role).Num?
  {
  }

  /**
   * A single weight: the score is the feature's percentile, read through the
   * alias table, or `100 - pct` when the key is listed as negative.
   */
  lemma RoleScoreSingleFeature(t: Table, i: int, role: Role, k: string, w: real)
    requires role.weights == [(k, w)] && w != 0.0
    requires Included(t, k) && Get(t, i, PctName(Alias(k))).Num? && Eligible(t, i, role)
    ensures var v := Get(t, i, PctName(Alias(k))).x;
      RoleScore(t, i, role) == Num(if k in role.negatives then 100.0 - v else v)
  {
    var v := Get(t, i, PctName(Alias(k))).x;
    var c := if k in role.negatives then 100.0 - v else v;
    assert role.weights[..0] == [];
    assert WeightedSum(t, i, role.weights, role.negatives) == Num(0.0 + w * c);
    assert WeightTotal(t, role.weights) == 0.0 + w;
    assert (0.0 + w * c) / (0.0 + w) == c;
  }

  /** The five combined config keys resolve to their canonical features; any other key is used as is. */
  lemma AliasTable(k: string)
    ensures Alias("long_pass_cmp_p90_or_pct") == "long_pass_cmp_pct"
    ensures Alias("aerial_win_pct_or_won_p90") == "aerial_win_pct"
    ensures Alias("errors_or_dispossessed_neg") == "errors_p90"
    ensures Alias("dispossessed_miscontrols_neg") == "mis_dis_p90"
    ensures Alias("fouls_committed_neg") == "fouls_p90"
    ensures (k !in {"long_pass_cmp_p90_or_pct", "aerial_win_pct_or_won_p90", "errors_or_dispossessed_neg",
      "dispossessed_miscontrols_neg", "fouls_committed_neg"}) ==> Alias(k) == k
  {
    if forall j :: 0 <= j < |Aliases| ==> Aliases[j].0 != k {
      ResolveAbsent(Aliases, k);
    }
  }

  lemma {:induction false} ResolveAbsent(table: seq<(string, string)>, k: string)
    requires forall j :: 0 <= j < |table| ==> table[j].0 != k
    ensures Resolve(table, k) == k
  {
    if table != [] {
      assert table[0].0 != k;
      ResolveAbsent(table[1..], k);
    }
  }

  /** A weight whose percentile column is absent adds to neither the sum nor the total. */
  lemma SumSnoc(t: Table, i: int, weights: seq<(string, real)>, e: (string, real), negatives: set<string>)
    ensures WeightedSum(t, i, weights + [e], negatives) == SumStep(t, i, WeightedSum(t, i, weights, negatives), e, negatives)
    ensures WeightTotal(t, weights + [e]) == TotalStep(t, WeightTotal(t, weights), e)
  {
    assert (weights + [e])[..|weights|] == weights;
  }

  lemma {:induction false} SkipAbsent(t: Table, i: int, before: seq<(string, real)>, k: string, w: real, after: seq<(string, real)>, negatives: set<string>)
    requires !Included(t, k)
    ensures WeightedSum(t, i, before + [(k, w)] + after, negatives) == WeightedSum(t, i, before + after, negatives)
    ensures WeightTotal(t, before + [(k, w)] + after) == WeightTotal(t, before + after)
  {
    if after == [] {
      assert before + [(k, w)] + after == before + [(k, w)];
      assert before + after == before;
      SumSnoc(t, i, before, (k, w), negatives);
    } else {
      var a' := after[..|after| - 1];
      var e := after[|after| - 1];
      SkipAbsent(t, i, before, k, w, a', negatives);
      assert before + [(k, w)] + after == (before + [(k, w)] + a') + [e];
      assert before + after == (before + a') + [e];
      SumSnoc(t, i, before + [(k, w)] + a', e, negatives);
      SumSnoc(t, i, before + a', e, negatives);
    }
  }

  function ScoreName(roleId: string): string {
    "score_" + roleId
  }

  predicate IsScoreName(d: string) {
    |d| >= 6 && d[..6] == "score_"
  }

  /** A name whose first two letters are not "sc" is not a score column. */
  lemma NotScoreName(d: string)
    requires |d| < 2 || d[0] != 's' || d[1] != 'c'
    ensures !IsScoreName(d)
  {
    if |d| >= 6 {
      assert d[..6][0] == d[0] && d[..6][1] == d[1];
    }
  }

  lemma ScoreNameInjective(a: string, b: string)
    requires ScoreName(a) == ScoreName(b)
    ensures a == b
  {
    assert a == ScoreName(a)[6..] && b == ScoreName(b)[6..];
  }

  lemma ScoreNameIsScoreName(roleId: string)
    ensures IsScoreName(ScoreName(roleId))
  {
    assert ScoreName(roleId)[..6] == "score_";
  }

  /** Two frames that agree, at row `i`, on every column that is not a score column. */
  ghost predicate AgreeOffScores(t: Table, t': Table, i: int) {
    forall d :: !IsScoreName(d) ==> (d in t.columns <==> d in t'.columns) && Get(t, i, d) == Get(t', i, d)
  }

  /** The score column of one role, row by row. */
  function ScoreColumn(t: Table, role: Role): (r: seq<Cell>)
    ensures |r| == |t.rows|
    ensures forall i :: 0 <= i < |t.rows| ==> r[i] == RoleScore(t, i, role)
  {
    seq(|t.rows|, i requires 0 <= i < |t.rows| => RoleScore(t, i, role))
  }

  /** One iteration of the role loop: eligibility (a KeyError when inputs are missing), then the score column. */
  function RoleStep(t: Table, role: Role): (r: Result<Table>)
    requires t.Shaped()
    ensures r.Ok? ==> r.value.Shaped() && |r.value.rows| == |t.rows|
  {
    if "position_bucket" !in t.columns then Err(MissingColumn("position_bucket"))
    else match MustHaveError(t, role.mustHave, 0)
      case Some(c) => Err(MissingColumn(c))
      case None => Ok(SetColumn(t, ScoreName(role.roleId), ScoreColumn(t, role)))
  }

  /** The loop over roles, as a fold. */
  function ScoreRolesSpec(t: Table, roles: seq<Role>): (r: Result<Table>)
    requires t.Shaped()
    ensures r.Ok? ==> r.value.Shaped() && |r.value.rows| == |t.rows|
    decreases |roles|
  {
    if roles == [] then Ok(t)
    else match RoleStep(t, roles[0])
      case Err(e) => Err(e)
      case Ok(t1) => ScoreRolesSpec(t1, roles[1..])
  }

  /** `score_roles`: add one `score_<role_id>` column per configured role. */
  method ScoreRoles(df: Table, roles: seq<Role>) returns (r: Result<Table>)
    requires df.Shaped()
    ensures r == ScoreRolesSpec(df, roles)
  {
    var out := df;
    var n := 0;
    while n < |roles|
      invariant 0 <= n <= |roles| && out.Shaped()
      invariant ScoreRolesSpec(df, roles) == ScoreRolesSpec(out, roles[n..])
    {
      var role := roles[n];
      if "position_bucket" !in out.columns {
        return Err(MissingColumn("position_bucket"));
      }
      var must := ApplyMustHaves(out, role.mustHave);
      if must.Err? {
        return Err(must.error);
      }
      var elig := seq(|out.rows|, i requires 0 <= i < |out.rows| =>
        Get(out, i, "position_bucket") == Str(role.bucket) && must.value[i]);
      var score, wsum := WeightedScores(out, role.weights, role.negatives);
      var column := seq(|out.rows|, i requires 0 <= i < |out.rows| =>
        if !elig[i] || !score[i].Num? || wsum == 0.0 then Null else Num(score[i].x / wsum));
      assert column == ScoreColumn(out, role);
      out := SetColumn(out, ScoreName(role.roleId), column);
      n := n + 1;
    }
    return Ok(out);
  }

  /** The weighted sums of every row and the total weight of the included metrics, one metric at a time. */
  method WeightedScores(t: Table, weights: seq<(string, real)>, negatives: set<string>)
    returns (score: seq<Cell>, wsum: real)
    ensures |score| == |t.rows|
    ensures forall i :: 0 <= i < |t.rows| ==> score[i] == WeightedSum(t, i, weights, negatives)
    ensures wsum == WeightTotal(t, weights)
  {
    score := seq(|t.rows|, i => Num(0.0));
    wsum := 0.0;
    var j := 0;
    while j < |weights|
      invariant 0 <= j <= |weights|
      invariant |score| == |t.rows|
      invariant forall i :: 0 <= i < |t.rows| ==> score[i] == WeightedSum(t, i, weights[..j], negatives)
      invariant wsum == WeightTotal(t, weights[..j])
    {
      var (k, w) := weights[j];
      assert weights[..j + 1][..j] == weights[..j];
      if Included(t, k) {
        score := seq(|score|, i requires 0 <= i < |score| => AddWeighted(score[i], w, Contribution(t, i, k, negatives)));
        wsum := wsum + w;
      }
      j := j + 1;
    }
    assert weights[..j] == weights;
  }

  /** Writing a score column leaves the other columns of every row as they were. */
  lemma SetScoreAgrees(t: Table, c: string, cells: seq<Cell>, i: int)
    requires t.Shaped() && |cells| == |t.rows| && IsScoreName(c)
    ensures AgreeOffScores(t, SetColumn(t, c, cells), i)
  {
    var t1 := SetColumn(t, c, cells);
    forall d | !IsScoreName(d)
      ensures (d in t.columns <==> d in t1.columns) && Get(t, i, d) == Get(t1, i, d)
    {
      assert d != c;
    }
  }

  lemma {:induction false} WeightedFrame(t: Table, t': Table, i: int, weights: seq<(string, real)>, negatives: set<string>)
    requires AgreeOffScores(t, t', i)
    ensures WeightedSum(t, i, weights, negatives) == WeightedSum(t', i, weights, negatives)
    ensures WeightTotal(t, weights) == WeightTotal(t', weights)
  {
    if weights != [] {
      WeightedFrame(t, t', i, weights[..|weights| - 1], negatives);
      var k := weights[|weights| - 1].0;
      var d := PctName(Alias(k));
      assert d[0] == 'p';
      NotScoreName(d);
    }
  }

  /** A role's eligibility and score read no score column. */
  lemma RoleScoreFrame(t: Table, t': Table, i: int, role: Role)
    requires AgreeOffScores(t, t', i)
    ensures RoleScore(t, i, role) == RoleScore(t', i, role)
    ensures MustHaveError(t, role.mustHave, 0) == MustHaveError(t', role.mustHave, 0)
  {
    forall j | 0 <= j < |MustHaveChecks|
      ensures !IsScoreName(MustHaveChecks[j].1)
    {
      NotScoreName(MustHaveChecks[j].1);
    }
    NotScoreName("position_bucket");
    assert forall j :: 0 <= j < |MustHaveChecks| ==> (Active(t, role.mustHave, j) <==> Active(t', role.mustHave, j));
    MustHaveErrorFrame(t, t', role.mustHave, 0);
    WeightedFrame(t, t', i, role.weights, role.negatives);
  }

  lemma {:induction false} MustHaveErrorFrame(t: Table, t': Table, mh: map<string, real>, j: nat)
    requires j <= |MustHaveChecks|
    requires forall l :: 0 <= l < |MustHaveChecks| ==> (MustHaveChecks[l].1 in t.columns <==> MustHaveChecks[l].1 in t'.columns)
    ensures MustHaveError(t, mh, j) == MustHaveError(t', mh, j)
    decreases |MustHaveChecks| - j
  {
    if j < |MustHaveChecks| {
      MustHaveErrorFrame(t, t', mh, j + 1);
    }
  }

  /** No later role writes the same score column. */
  predicate LastOfId(roles: seq<Role>, a: int)
    requires 0 <= a < |roles|
  {
    forall b :: a < b < |roles| ==> roles[b].roleId != roles[a].roleId
  }

  /** Scoring keeps every row and, at every row, every non-score column. */
  lemma {:induction false} ScoreRolesAgree(t: Table, roles: seq<Role>, i: int)
    requires t.Shaped() && ScoreRolesSpec(t, roles).Ok?
    ensures |ScoreRolesSpec(t, roles).value.rows| == |t.rows|
    ensures AgreeOffScores(t, ScoreRolesSpec(t, roles).value, i)
    decreases |roles|
  {
    if roles != [] {
      var t1 := RoleStep(t, roles[0]).value;
      ScoreRolesAgree(t1, roles[1..], i);
      ScoreNameIsScoreName(roles[0].roleId);
      SetScoreAgrees(t, ScoreName(roles[0].roleId), ScoreColumn(t, roles[0]), i);
    }
  }

  /** The score column of role `a`, when no later role shares its id, holds its score on the input. */
  lemma {:induction false} ScoreRolesScore(t: Table, roles: seq<Role>, a: int, i: int)
    requires t.Shaped() && ScoreRolesSpec(t, roles).Ok?
    requires 0 <= a < |roles| && LastOfId(roles, a) && 0 <= i < |t.rows|
    ensures ScoreName(roles[a].roleId) in ScoreRolesSpec(t, roles).value.columns
    ensures Get(ScoreRolesSpec(t, roles).value, i, ScoreName(roles[a].roleId)) == RoleScore(t, i, roles[a])
    decreases |roles|
  {
    var t1 := RoleStep(t, roles[0]).value;
    var rest := roles[1..];
    ScoreNameIsScoreName(roles[0].roleId);
    SetScoreAgrees(t, ScoreName(roles[0].roleId), ScoreColumn(t, roles[0]), i);
    if a == 0 {
      ScoreRolesKeeps(t1, rest, ScoreName(roles[0].roleId), i);
    } else {
      assert rest[a - 1] == roles[a];
      assert LastOfId(rest, a - 1);
      ScoreRolesScore(t1, rest, a - 1, i);
      RoleScoreFrame(t, t1, i, roles[a]);
    }
  }

  /**
   * Scoring keeps every row and every non-score column, and each role's
   * score column (the last role of that id, when ids repeat) holds that role's
   * score computed on the input frame.
   */
  lemma ScoreRolesResult(t: Table, roles: seq<Role>)
    requires t.Shaped() && ScoreRolesSpec(t, roles).Ok?
    ensures var r := ScoreRolesSpec(t, roles).value;
      && |r.rows| == |t.rows|
      && (forall i :: 0 <= i < |t.rows| ==> AgreeOffScores(t, r, i))
      && (forall a :: 0 <= a < |roles| && LastOfId(roles, a) ==> ScoreName(roles[a].roleId) in r.columns)
      && (forall a, i :: 0 <= a < |roles| && LastOfId(roles, a) && 0 <= i < |t.rows| ==>
            Get(r, i, ScoreName(roles[a].roleId)) == RoleScore(t, i, roles[a]))
  {
    var r := ScoreRolesSpec(t, roles).value;
    forall i | 0 <= i < |t.rows|
      ensures AgreeOffScores(t, r, i)
    {
      ScoreRolesAgree(t, roles, i);
    }
    forall a, i | 0 <= a < |roles| && LastOfId(roles, a) && 0 <= i < |t.rows|
      ensures Get(r, i, ScoreName(roles[a].roleId)) == RoleScore(t, i, roles[a])
    {
      ScoreRolesScore(t, roles, a, i);
    }
    forall a | 0 <= a < |roles| && LastOfId(roles, a)
      ensures ScoreName(roles[a].roleId) in r.columns
    {
      ScoreRolesHasColumn(t, roles, a);
    }
    ScoreRolesAgree(t, roles, 0);
  }

  lemma {:induction false} ScoreRolesHasColumn(t: Table, roles: seq<Role>, a: int)
    requires t.Shaped() && ScoreRolesSpec(t, roles).Ok?
    requires 0 <= a < |roles| && LastOfId(roles, a)
    ensures ScoreName(roles[a].roleId) in ScoreRolesSpec(t, roles).value.columns
    decreases |roles|
  {
    var t1 := RoleStep(t, roles[0]).value;
    var rest := roles[1..];
    if a == 0 {
      forall b | 0 <= b < |rest|
        ensures ScoreName(rest[b].roleId) != ScoreName(roles[0].roleId)
      {
        assert rest[b] == roles[b + 1];
        if ScoreName(rest[b].roleId) == ScoreName(roles[0].roleId) {
          ScoreNameInjective(rest[b].roleId, roles[0].roleId);
        }
      }
      ScoreRolesKeeps(t1, rest, ScoreName(roles[0].roleId), 0);
    } else {
      assert rest[a - 1] == roles[a];
      assert LastOfId(rest, a - 1);
      ScoreRolesHasColumn(t1, rest, a - 1);
    }
  }

  /** A score column that no later role rewrites keeps its cells. */
  lemma {:induction false} ScoreRolesKeeps(t: Table, roles: seq<Role>, c: string, i: int)
    requires t.Shaped() && ScoreRolesSpec(t, roles).Ok?
    requires c in t.columns
    requires forall b :: 0 <= b < |roles| ==> ScoreName(roles[b].roleId) != c
    ensures c in ScoreRolesSpec(t, roles).value.columns
    ensures Get(ScoreRolesSpec(t, roles).value, i, c) == Get(t, i, c)
    decreases |roles|
  {
    if roles != [] {
      var t1 := RoleStep(t, roles[0]).value;
      ScoreRolesKeeps(t1, roles[1..], c, i);
    }
  }
}
