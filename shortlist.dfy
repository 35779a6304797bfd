/**
 * A role's shortlist: the scored pool with subscores (means of percentile
 * columns), rule-based risk flags, evidence columns, sorted by score then
 * minutes, cut to `top_n` and ranked.
 */
module Shortlist {
  import opened Seqs
  import opened Sorting
  import opened Text
  import opened Tables
  import Roles

  // -------------------------------------------------------------- subscores

  /** Subscore name to percentile columns, per role, in declaration order. */
  const Subscores: seq<(string, seq<(string, seq<string>)>)> := [
    ("BPCB", [
      ("progression", ["pct_prog_passes_p90", "pct_passes_final_third_p90", "pct_prog_carries_p90"]),
      ("defending", ["pct_tkl_int_p90", "pct_clr_p90", "pct_aerial_win_pct"]),
      ("security", ["pct_pass_cmp_pct", "pct_errors_p90"]),
      ("creation", [])]),
    ("DLP", [
      ("progression", ["pct_prog_passes_p90", "pct_passes_final_third_p90", "pct_prog_carries_p90"]),
      ("creation", ["pct_key_passes_p90", "pct_xa_p90", "pct_sca_p90"]),
      ("defending", ["pct_tkl_int_p90"]),
      ("security", ["pct_pass_cmp_pct", "pct_fouls_p90"])]),
    ("WCR", [
      ("progression", ["pct_prog_carries_p90", "pct_carries_pa_p90", "pct_succ_takeons_p90"]),
      ("creation", ["pct_xa_p90", "pct_key_passes_p90", "pct_sca_p90", "pct_crosses_pa_p90"]),
      ("finishing", ["pct_Per_90_Minutes_npxG"]),
      ("security", ["pct_takeon_succ_pct", "pct_mis_dis_p90"])])
  ]

  /** `SUBSCORES[role_id]`; an unknown role has no entry. */
  function SubscoresOf(table: seq<(string, seq<(string, seq<string>)>)>, roleId: string)
    : (r: Option<seq<(string, seq<string>)>>)
    ensures r.None? <==> forall j :: 0 <= j < |table| ==> table[j].0 != roleId
    ensures r.Some? ==> (roleId, r.value) in table
  {
    if table == [] then None
    else if table[0].0 == roleId then Some(table[0].1)
    else SubscoresOf(table[1..], roleId)
  }

  /** The security subscore's columns and its inverted column, chosen by role. */
  function SecurityInputs(roleId: string): (seq<string>, seq<string>) {
    if roleId == "BPCB" then (["pct_pass_cmp_pct", "pct_errors_p90"], ["pct_errors_p90"])
    else if roleId == "DLP" then (["pct_pass_cmp_pct", "pct_fouls_p90"], ["pct_fouls_p90"])
    else (["pct_takeon_succ_pct", "pct_mis_dis_p90"], ["pct_mis_dis_p90"])
  }

  function Sum(xs: seq<real>): real {
    if xs == [] then 0.0 else xs[0] + Sum(xs[1..])
  }

  /** `100 - x` for an inverted column. */
  function Oriented(c: string, invert: seq<string>, x: real): real {
    if c in invert then 100.0 - x else x
  }

  /** The row's numeric values in `cols`, oriented; absent columns and missing values are skipped. */
  function RowValues(t: Table, i: int, cols: seq<string>, invert: seq<string>): (vs: seq<real>)
    ensures |vs| <= |cols|
  {
    if cols == [] then []
    else
      var rest := RowValues(t, i, cols[1..], invert);
      var c := Get(t, i, cols[0]);
      if c.Num? then [Oriented(cols[0], invert, c.x)] + rest else rest
  }

  /** `_mean_pct` at one row: the mean of the values present, null when there are none. */
  function MeanPct(t: Table, i: int, cols: seq<string>, invert: seq<string>): Cell {
    var vs := RowValues(t, i, cols, invert);
    if vs == [] then Null else Num(Sum(vs) / |vs| as real)
  }

  function MeanPctColumn(t: Table, cols: seq<string>, invert: seq<string>): (r: seq<Cell>)
    ensures |r| == |t.rows|
    ensures forall i :: 0 <= i < |t.rows| ==> r[i] == MeanPct(t, i, cols, invert)
  {
    seq(|t.rows|, i requires 0 <= i < |t.rows| => MeanPct(t, i, cols, invert))
  }

  lemma {:induction false} RowValuesEmpty(t: Table, i: int, cols: seq<string>, invert: seq<string>)
    ensures RowValues(t, i, cols, invert) == [] <==> forall c :: c in cols ==> !Get(t, i, c).Num?
  {
    if cols != [] {
      RowValuesEmpty(t, i, cols[1..], invert);
      assert forall c :: c in cols <==> c == cols[0] || c in cols[1..];
    }
  }

  /** The mean is null exactly when none of the columns has a number at this row. */
  lemma MeanPctNull(t: Table, i: int, cols: seq<string>, invert: seq<string>)
    ensures MeanPct(t, i, cols, invert).Null? <==> forall c :: c in cols ==> !Get(t, i, c).Num?
    ensures !MeanPct(t, i, cols, invert).Str?
  {
    RowValuesEmpty(t, i, cols, invert);
  }

  /** Dropping the columns the table lacks, as the source does first, changes nothing. */
  lemma {:induction false} MeanPctPresentOnly(t: Table, i: int, cols: seq<string>, invert: seq<string>)
    ensures RowValues(t, i, PresentColumns(cols, t.columns), invert) == RowValues(t, i, cols, invert)
    ensures MeanPct(t, i, PresentColumns(cols, t.columns), invert) == MeanPct(t, i, cols, invert)
  {
    if cols != [] {
      MeanPctPresentOnly(t, i, cols[1..], invert);
    }
  }

  lemma {:induction false} SumWithin(xs: seq<real>, lo: real, hi: real)
    requires forall k :: 0 <= k < |xs| ==> lo <= xs[k] <= hi
    ensures |xs| as real * lo <= Sum(xs) <= |xs| as real * hi
  {
    if xs != [] {
      SumWithin(xs[1..], lo, hi);
    }
  }

  lemma {:induction false} RowValuesPercent(t: Table, i: int, cols: seq<string>, invert: seq<string>)
    requires forall c :: c in cols && Get(t, i, c).Num? ==> 0.0 <= Get(t, i, c).x <= 100.0
    ensures forall k :: 0 <= k < |RowValues(t, i, cols, invert)| ==> 0.0 <= RowValues(t, i, cols, invert)[k] <= 100.0
  {
    if cols != [] {
      RowValuesPercent(t, i, cols[1..], invert);
    }
  }

  /** Percentile inputs give a subscore on the same 0..100 scale, inverted or not. */
  lemma MeanPctWithin(t: Table, i: int, cols: seq<string>, invert: seq<string>)
    requires forall c :: c in cols && Get(t, i, c).Num? ==> 0.0 <= Get(t, i, c).x <= 100.0
    ensures MeanPct(t, i, cols, invert).Num? ==> 0.0 <= MeanPct(t, i, cols, invert).x <= 100.0
  {
    var vs := RowValues(t, i, cols, invert);
    RowValuesPercent(t, i, cols, invert);
    if vs != [] {
      SumWithin(vs, 0.0, 100.0);
      DivWithin(Sum(vs), |vs| as real);
    }
  }

  lemma DivWithin(s: real, n: real)
    requires n > 0.0 && 0.0 <= s <= n * 100.0
    ensures 0.0 <= s / n <= 100.0
  {
    assert (s / n) * n == s;
  }

  /** With one value present, the mean is that value, or `100 - v` when inverted. */
  lemma MeanPctSingle(t: Table, i: int, c: string, d: string, invert: seq<string>)
    requires Get(t, i, c).Num? && !Get(t, i, d).Num?
    ensures MeanPct(t, i, [c, d], invert) == Num(if c in invert then 100.0 - Get(t, i, c).x else Get(t, i, c).x)
  {
    assert [c, d][1..] == [d] && [d][1..] == [];
    assert RowValues(t, i, [d], invert) == [];
    var vs := RowValues(t, i, [c, d], invert);
    assert vs == [Oriented(c, invert, Get(t, i, c).x)];
    assert Sum(vs) == vs[0] + Sum([]);
  }

  /** The columns listed under `name` in a role's subscore entry. */
  function SubscoreCols(subs: seq<(string, seq<string>)>, name: string): Option<seq<string>> {
    if subs == [] then None
    else if subs[0].0 == name then Some(subs[0].1)
    else SubscoreCols(subs[1..], name)
  }

  /**
   * The security subscore, computed apart from the table, averages exactly the
   * columns the table lists as "security" for each known role, and inverts
   * the second of them, the role's "higher is worse" metric.
   */
  lemma SecurityMatchesTable(roleId: string)
    requires SubscoresOf(Subscores, roleId).Some?
    ensures SubscoreCols(SubscoresOf(Subscores, roleId).value, "security") == Some(SecurityInputs(roleId).0)
    ensures SecurityInputs(roleId).1 == [SecurityInputs(roleId).0[1]]
  {
  }

  // -------------------------------------------------------------- risk flags

  predicate Between(c: Cell, lo: real, hi: real) {
    c.Num? && lo <= c.x <= hi
  }

  predicate AtMost(c: Cell, threshold: real) {
    c.Num? && c.x <= threshold
  }

  /** The flags in their fixed order. */
  const FlagOrder: seq<string> := ["LOW_MINUTES", "HIGH_ERRORS", "HIGH_TURNOVERS", "VERY_YOUNG", "OLDER_PROFILE"]

  /** Whether flag `f` is raised for row `i`; a missing value raises nothing. */
  predicate Raised(t: Table, i: int, f: string) {
    if f == "LOW_MINUTES" then Between(Get(t, i, "minutes"), 900.0, 1200.0)
    else if f == "HIGH_ERRORS" then "pct_errors_p90" in t.columns && AtLeast(Get(t, i, "pct_errors_p90"), 90.0)
    else if f == "HIGH_TURNOVERS" then "pct_mis_dis_p90" in t.columns && AtLeast(Get(t, i, "pct_mis_dis_p90"), 90.0)
    else if f == "VERY_YOUNG" then AtMost(Get(t, i, "age"), 19.0)
    else f == "OLDER_PROFILE" && AtLeast(Get(t, i, "age"), 32.0)
  }

  /** The raised flags among `fs`, in the order of `fs`. */
  function RaisedIn(t: Table, i: int, fs: seq<string>): seq<string> {
    if fs == [] then []
    else (if Raised(t, i, fs[0]) then [fs[0]] else []) + RaisedIn(t, i, fs[1..])
  }

  /** The raised flags of row `i`, in the fixed order. */
  function RiskFlagList(t: Table, i: int): seq<string> {
    RaisedIn(t, i, FlagOrder)
  }

  /** `"|".join(...)` of the raised flags. */
  function RiskFlags(t: Table, i: int): string {
    Join(RiskFlagList(t, i), "|")
  }

  /** `0 if s == "" else len(s.split("|"))`. */
  function PieceCount(s: string): nat {
    if s == "" then 0 else CountChar(s, '|') + 1
  }

  function FlagRank(f: string): nat {
    if f == "LOW_MINUTES" then 0
    else if f == "HIGH_ERRORS" then 1
    else if f == "HIGH_TURNOVERS" then 2
    else if f == "VERY_YOUNG" then 3
    else 4
  }

  lemma {:induction false} RaisedInSpec(t: Table, i: int, fs: seq<string>)
    requires forall a, b :: 0 <= a < b < |fs| ==> FlagRank(fs[a]) < FlagRank(fs[b])
    ensures var r := RaisedIn(t, i, fs);
      && (forall f :: f in r <==> f in fs && Raised(t, i, f))
      && (forall a, b :: 0 <= a < b < |r| ==> FlagRank(r[a]) < FlagRank(r[b]))
  {
    if fs != [] {
      RaisedInSpec(t, i, fs[1..]);
      var rest := RaisedIn(t, i, fs[1..]);
      assert forall f :: f in fs <==> f == fs[0] || f in fs[1..];
      forall k | 0 <= k < |rest|
        ensures FlagRank(fs[0]) < FlagRank(rest[k])
      {
        assert rest[k] in fs[1..];
      }
    }
  }

  /** A flag is listed exactly when raised, each at most once, in the fixed order. */
  lemma RiskFlagListSpec(t: Table, i: int)
    ensures var r := RiskFlagList(t, i);
      && (forall f :: f in r <==> f in FlagOrder && Raised(t, i, f))
      && (forall a, b :: 0 <= a < b < |r| ==> FlagRank(r[a]) < FlagRank(r[b]))
  {
    RaisedInSpec(t, i, FlagOrder);
  }

  /** `risk_count` counts the raised flags and is zero exactly when `risk_flags` is empty. */
  lemma RiskCountSpec(t: Table, i: int)
    ensures PieceCount(RiskFlags(t, i)) == |RiskFlagList(t, i)|
    ensures RiskFlags(t, i) == "" <==> RiskFlagList(t, i) == []
  {
    var r := RiskFlagList(t, i);
    RiskFlagListSpec(t, i);
    forall k | 0 <= k < |r|
      ensures r[k] != "" && '|' !in r[k]
    {
      assert r[k] in FlagOrder;
    }
    JoinCount(r, '|');
  }

  // ---------------------------------------------------------------- evidence

  /** Evidence KPIs per role. */
  const RoleKpis: seq<(string, seq<string>)> := [
    ("BPCB", ["prog_passes_p90", "passes_final_third_p90", "pass_cmp_pct", "tkl_int_p90", "aerial_win_pct"]),
    ("DLP", ["passes_att_p90", "prog_passes_p90", "pass_cmp_pct", "xa_p90", "sca_p90"]),
    ("WCR", ["prog_carries_p90", "succ_takeons_p90", "xa_p90", "sca_p90", "Per_90_Minutes_npxG"])
  ]

  function KpisOf(roleId: string): Option<seq<string>> {
    if roleId == RoleKpis[0].0 then Some(RoleKpis[0].1)
    else if roleId == RoleKpis[1].0 then Some(RoleKpis[1].1)
    else if roleId == RoleKpis[2].0 then Some(RoleKpis[2].1)
    else None
  }

  /** `evidence_<n>` for a one-digit `n`. */
  function EvidenceName(n: nat): string
    requires 1 <= n <= 9
  {
    "evidence_" + [('0' as int + n) as char]
  }

  /**
   * One evidence cell: text starting with "<kpi>=" when both the raw and the
   * percentile column exist and hold values, else null.
   */
  function EvidenceCell(t: Table, i: int, k: string): Cell {
    var pct := "pct_" + k;
    if k in t.columns && pct in t.columns && Get(t, i, k) != Null && Get(t, i, pct) != Null
    then Str(k + "=")
    else Null
  }

  function EvidenceColumn(t: Table, k: string): (r: seq<Cell>)
    ensures |r| == |t.rows|
    ensures forall i :: 0 <= i < |t.rows| ==> r[i] == EvidenceCell(t, i, k)
  {
    seq(|t.rows|, i requires 0 <= i < |t.rows| => EvidenceCell(t, i, k))
  }

  /** Adds `evidence_<n>`, `evidence_<n+1>`, ... for the KPIs in order. */
  function AddEvidence(t: Table, kpis: seq<string>, n: nat): (r: Table)
    requires t.Shaped() && 1 <= n && n + |kpis| <= 10
    ensures r.Shaped() && |r.rows| == |t.rows|
    decreases |kpis|
  {
    if kpis == [] then t
    else AddEvidence(SetColumn(t, EvidenceName(n), EvidenceColumn(t, kpis[0])), kpis[1..], n + 1)
  }

  /** `_evidence_strings(df, role_id, top_k)`; an unknown role is a `KeyError`. */
  function EvidenceStrings(t: Table, roleId: string, topK: int): (r: Result<Table>)
    requires t.Shaped()
    ensures r.Err? <==> KpisOf(roleId).None?
    ensures r.Err? ==> r.error == UnknownRole(roleId)
    ensures r.Ok? ==> r.value.Shaped() && |r.value.rows| == |t.rows|
  {
    match KpisOf(roleId)
    case None => Err(UnknownRole(roleId))
    case Some(kpis) => Ok(AddEvidence(t, PyTake(kpis, topK), 1))
  }

  lemma EvidenceNameInjective(a: nat, b: nat)
    requires 1 <= a <= 9 && 1 <= b <= 9 && a != b
    ensures EvidenceName(a) != EvidenceName(b)
  {
    assert EvidenceName(a)[9] != EvidenceName(b)[9];
  }

  /** Columns the fold does not name keep their cells and their presence. */
  lemma {:induction false} AddEvidenceFrame(t: Table, kpis: seq<string>, n: nat, i: int, d: string)
    requires t.Shaped() && 1 <= n && n + |kpis| <= 10 && 0 <= i < |t.rows|
    requires forall m :: n <= m < n + |kpis| ==> d != EvidenceName(m)
    ensures Get(AddEvidence(t, kpis, n), i, d) == Get(t, i, d)
    ensures d in AddEvidence(t, kpis, n).columns <==> d in t.columns
    decreases |kpis|
  {
    if kpis != [] {
      var name := EvidenceName(n);
      assert d != name;
      var t1 := SetColumn(t, name, EvidenceColumn(t, kpis[0]));
      AddEvidenceFrame(t1, kpis[1..], n + 1, i, d);
      assert Get(t1, i, d) == Get(t, i, d);
    }
  }

  /** Whether a column is one of those the shortlist adds to the pool. */
  predicate Derived(d: string) {
    d == "total_score" || d == "risk_flags" || d == "risk_count" || StartsWith(d, "sub_") || StartsWith(d, "evidence_")
  }

  /** A KPI whose raw and percentile columns are not added by the shortlist. */
  predicate PlainKpi(k: string) {
    !Derived(k) && !Derived("pct_" + k)
  }

  /** Evidence cells read only columns the fold leaves alone. */
  lemma EvidenceCellFrame(t: Table, u: Table, i: int, k: string)
    requires PlainKpi(k)
    requires forall d :: !Derived(d) ==> Get(u, i, d) == Get(t, i, d) && (d in u.columns <==> d in t.columns)
    ensures EvidenceCell(u, i, k) == EvidenceCell(t, i, k)
  {
  }

  /** Column `evidence_<n + a>` holds the evidence of the `a`-th KPI. */
  lemma {:induction false} AddEvidenceValue(t: Table, kpis: seq<string>, n: nat, i: int, a: nat)
    requires t.Shaped() && 1 <= n && n + |kpis| <= 10 && 0 <= i < |t.rows| && a < |kpis|
    requires forall b :: 0 <= b < |kpis| ==> PlainKpi(kpis[b])
    ensures Get(AddEvidence(t, kpis, n), i, EvidenceName(n + a)) == EvidenceCell(t, i, kpis[a])
    decreases |kpis|, 1
  {
    if a == 0 {
      AddEvidenceHead(t, kpis, n, i);
    } else {
      AddEvidenceLater(t, kpis, n, i, a);
    }
  }

  /** The inductive case of `AddEvidenceValue`: a later KPI's column is written by the rest of the fold. */
  lemma {:induction false} AddEvidenceLater(t: Table, kpis: seq<string>, n: nat, i: int, a: nat)
    requires t.Shaped() && 1 <= n && n + |kpis| <= 10 && 0 <= i < |t.rows| && 1 <= a < |kpis|
    requires forall b :: 0 <= b < |kpis| ==> PlainKpi(kpis[b])
    ensures Get(AddEvidence(t, kpis, n), i, EvidenceName(n + a)) == EvidenceCell(t, i, kpis[a])
    decreases |kpis|, 0
  {
    var t1 := SetColumn(t, EvidenceName(n), EvidenceColumn(t, kpis[0]));
    var rest := kpis[1..];
    AddEvidenceValue(t1, rest, n + 1, i, a - 1);
  }

  /** Column `evidence_<n>` holds the evidence of the first KPI. */
  lemma AddEvidenceHead(t: Table, kpis: seq<string>, n: nat, i: int)
    requires t.Shaped() && 1 <= n && n + |kpis| <= 10 && 0 <= i < |t.rows| && kpis != []
    ensures Get(AddEvidence(t, kpis, n), i, EvidenceName(n)) == EvidenceCell(t, i, kpis[0])
  {
    var t1 := SetColumn(t, EvidenceName(n), EvidenceColumn(t, kpis[0]));
    forall m | n + 1 <= m < n + |kpis|
      ensures EvidenceName(n) != EvidenceName(m)
    {
      EvidenceNameInjective(n, m);
    }
    AddEvidenceFrame(t1, kpis[1..], n + 1, i, EvidenceName(n));
  }

  // ------------------------------------------------------------- enrichment

  /** Adds `sub_<name>` for every subscore but "security", in order. */
  function AddSubscores(t: Table, subs: seq<(string, seq<string>)>): (r: Table)
    requires t.Shaped()
    ensures r.Shaped() && |r.rows| == |t.rows|
    decreases |subs|
  {
    if subs == [] then t
    else if subs[0].0 == "security" then AddSubscores(t, subs[1..])
    else AddSubscores(SetColumn(t, "sub_" + subs[0].0, MeanPctColumn(t, subs[0].1, [])), subs[1..])
  }

  lemma {:induction false} AddSubscoresFrame(t: Table, subs: seq<(string, seq<string>)>, i: int, d: string)
    requires t.Shaped()
    requires forall a :: 0 <= a < |subs| && subs[a].0 != "security" ==> d != "sub_" + subs[a].0
    ensures Get(AddSubscores(t, subs), i, d) == Get(t, i, d)
    ensures d in AddSubscores(t, subs).columns <==> d in t.columns
    decreases |subs|
  {
    if subs != [] {
      if subs[0].0 == "security" {
        AddSubscoresFrame(t, subs[1..], i, d);
      } else {
        AddSubscoresFrame(SetColumn(t, "sub_" + subs[0].0, MeanPctColumn(t, subs[0].1, [])), subs[1..], i, d);
      }
    }
  }

  lemma {:induction false} RowValuesFrame(t: Table, u: Table, i: int, cols: seq<string>, invert: seq<string>)
    requires forall c :: c in cols ==> Get(u, i, c) == Get(t, i, c)
    ensures RowValues(u, i, cols, invert) == RowValues(t, i, cols, invert)
  {
    if cols != [] {
      RowValuesFrame(t, u, i, cols[1..], invert);
    }
  }

  lemma SubNameInjective(a: string, b: string)
    requires a != b
    ensures "sub_" + a != "sub_" + b
  {
    assert ("sub_" + a)[4..] == a && ("sub_" + b)[4..] == b;
  }

  /** Column `sub_<name>` holds the mean of the subscore's columns, read from the input. */
  lemma {:induction false} AddSubscoresValue(t: Table, subs: seq<(string, seq<string>)>, i: int, a: nat)
    requires t.Shaped() && 0 <= i < |t.rows| && a < |subs| && subs[a].0 != "security"
    requires forall b, c :: 0 <= b < c < |subs| ==> subs[b].0 != subs[c].0
    requires forall b, c :: 0 <= b < |subs| && c in subs[b].1 ==> !StartsWith(c, "sub_")
    ensures Get(AddSubscores(t, subs), i, "sub_" + subs[a].0) == MeanPct(t, i, subs[a].1, [])
    decreases |subs|
  {
    if subs[0].0 == "security" {
      AddSubscoresValue(t, subs[1..], i, a - 1);
    } else {
      var t1 := SetColumn(t, "sub_" + subs[0].0, MeanPctColumn(t, subs[0].1, []));
      if a == 0 {
        forall b | 0 <= b < |subs[1..]|
          ensures "sub_" + subs[0].0 != "sub_" + subs[1..][b].0
        {
          SubNameInjective(subs[0].0, subs[1..][b].0);
        }
        AddSubscoresFrame(t1, subs[1..], i, "sub_" + subs[0].0);
      } else {
        AddSubscoresValue(t1, subs[1..], i, a - 1);
        forall c | c in subs[a].1
          ensures Get(t1, i, c) == Get(t, i, c)
        {
          assert subs[a].1 == subs[a].1;
          StartsWithConcat("sub_", subs[0].0);
        }
        RowValuesFrame(t, t1, i, subs[a].1, []);
      }
    }
  }

  /** `pool["risk_count"]` from the `risk_flags` cells. */
  function RiskCountCell(c: Cell): Cell {
    if c.Str? then Num(PieceCount(c.s) as real) else Null
  }

  function RiskFlagsColumn(t: Table): (r: seq<Cell>)
    ensures |r| == |t.rows|
    ensures forall i :: 0 <= i < |t.rows| ==> r[i] == Str(RiskFlags(t, i))
  {
    seq(|t.rows|, i requires 0 <= i < |t.rows| => Str(RiskFlags(t, i)))
  }

  function RiskCountColumn(t: Table): (r: seq<Cell>)
    ensures |r| == |t.rows|
    ensures forall i :: 0 <= i < |t.rows| ==> r[i] == RiskCountCell(Get(t, i, "risk_flags"))
  {
    seq(|t.rows|, i requires 0 <= i < |t.rows| => RiskCountCell(Get(t, i, "risk_flags")))
  }

  /** The pool with `sub_security` and the role's other subscores added. */
  function Subscored(pool: Table, roleId: string, subs: seq<(string, seq<string>)>): (r: Table)
    requires pool.Shaped()
    ensures r.Shaped() && |r.rows| == |pool.rows|
  {
    var sec := SecurityInputs(roleId);
    AddSubscores(SetColumn(pool, "sub_security", MeanPctColumn(pool, sec.0, sec.1)), subs)
  }

  /** `pool["total_score"] = pool[score_col]`. */
  function Totalled(t: Table, roleId: string): (r: Table)
    requires t.Shaped()
    ensures r.Shaped() && |r.rows| == |t.rows|
  {
    SetColumn(t, "total_score", ColumnCells(t, Roles.ScoreName(roleId)))
  }

  /** `risk_flags` and then `risk_count`, read from `risk_flags`. */
  function Flagged(t: Table): (r: Table)
    requires t.Shaped()
    ensures r.Shaped() && |r.rows| == |t.rows|
  {
    var t4 := SetColumn(t, "risk_flags", RiskFlagsColumn(t));
    SetColumn(t4, "risk_count", RiskCountColumn(t4))
  }

  /** The pool after subscores, total score, risk flags and evidence are added. */
  function Enrich(pool: Table, roleId: string): (r: Result<Table>)
    requires pool.Shaped()
    ensures r.Ok? ==> r.value.Shaped() && |r.value.rows| == |pool.rows|
  {
    match SubscoresOf(Subscores, roleId)
    case None => Err(UnknownRole(roleId))
    case Some(subs) =>
      var t3 := Totalled(Subscored(pool, roleId, subs), roleId);
      if "minutes" !in t3.columns then Err(MissingColumn("minutes"))
      else if "age" !in t3.columns then Err(MissingColumn("age"))
      else EvidenceStrings(Flagged(t3), roleId, 5)
  }

  // ---------------------------------------------------------------- ordering

  /** A row's sort key: `total_score` and `minutes`, a missing value as `None`. */
  type RowKey = (Option<real>, Option<real>)

  /** Descending with missing values last (`ascending=False`, `na_position="last"`). */
  predicate DescLe(x: Option<real>, y: Option<real>) {
    y.None? || (x.Some? && x.value >= y.value)
  }

  /** Row `a` may come before row `b`: higher score, then more minutes. */
  predicate KeyLe(a: RowKey, b: RowKey) {
    if a.0 == b.0 then DescLe(a.1, b.1) else DescLe(a.0, b.0)
  }

  function KeyOf(keys: seq<RowKey>, i: nat): RowKey {
    if i < |keys| then keys[i] else (None, None)
  }

  function ByRow(keys: seq<RowKey>): (nat, nat) -> bool {
    (a: nat, b: nat) => KeyLe(KeyOf(keys, a), KeyOf(keys, b))
  }

  lemma ByRowPreorder(keys: seq<RowKey>)
    ensures TotalPreorder(ByRow(keys))
  {
    forall a: nat, b: nat, c: nat | ByRow(keys)(a, b) && ByRow(keys)(b, c)
      ensures ByRow(keys)(a, c)
    {
    }
  }

  function InsertRow(x: nat, s: seq<nat>, keys: seq<RowKey>): (r: seq<nat>)
    ensures |r| == |s| + 1
  {
    if s == [] then [x]
    else if KeyLe(KeyOf(keys, x), KeyOf(keys, s[0])) then [x] + s
    else [s[0]] + InsertRow(x, s[1..], keys)
  }

  function SortRows(s: seq<nat>, keys: seq<RowKey>): (r: seq<nat>)
    ensures |r| == |s|
  {
    if s == [] then [] else InsertRow(s[0], SortRows(s[1..], keys), keys)
  }

  /** `sort_values(["total_score", "minutes"], ascending=[False, False])` as a row order. */
  function RankOrder(keys: seq<RowKey>): (order: seq<nat>)
    ensures |order| == |keys|
  {
    SortRows(Range(|keys|), keys)
  }

  lemma {:induction false} InsertRowIsInsert(x: nat, s: seq<nat>, keys: seq<RowKey>)
    ensures InsertRow(x, s, keys) == Insert(x, s, ByRow(keys))
  {
    if s != [] && !KeyLe(KeyOf(keys, x), KeyOf(keys, s[0])) {
      InsertRowIsInsert(x, s[1..], keys);
    }
  }

  lemma {:induction false} SortRowsIsSortBy(s: seq<nat>, keys: seq<RowKey>)
    ensures SortRows(s, keys) == SortBy(s, ByRow(keys))
  {
    if s != [] {
      SortRowsIsSortBy(s[1..], keys);
      InsertRowIsInsert(s[0], SortRows(s[1..], keys), keys);
    }
  }

  /** Rows with equal keys keep their pool order, as pandas' multi-key sort (a stable lexsort) does. */
  predicate Stable(order: seq<nat>, keys: seq<RowKey>) {
    forall a, b :: 0 <= a < b < |order| && KeyOf(keys, order[a]) == KeyOf(keys, order[b]) ==> order[a] < order[b]
  }

  /** Every row of an insertion is the inserted row or one of the rows it was inserted into. */
  lemma InsertRowFrom(x: nat, s: seq<nat>, keys: seq<RowKey>)
    ensures forall k :: 0 <= k < |InsertRow(x, s, keys)| ==>
      InsertRow(x, s, keys)[k] == x || InsertRow(x, s, keys)[k] in s
  {
    var r := InsertRow(x, s, keys);
    InsertRowIsInsert(x, s, keys);
    forall k | 0 <= k < |r|
      ensures r[k] == x || r[k] in s
    {
      assert r[k] in multiset(r);
    }
  }

  /** A row inserted ahead of every row it ties with, into a stable order of later rows, keeps it stable. */
  lemma {:induction false} InsertRowStable(x: nat, s: seq<nat>, keys: seq<RowKey>)
    requires Stable(s, keys) && forall k :: 0 <= k < |s| ==> x < s[k]
    ensures Stable(InsertRow(x, s, keys), keys)
  {
    if s == [] {
    } else if KeyLe(KeyOf(keys, x), KeyOf(keys, s[0])) {
      ConsStable(x, s, keys);
    } else {
      var tail := InsertRow(x, s[1..], keys);
      InsertRowStable(x, s[1..], keys);
      InsertRowFrom(x, s[1..], keys);
      assert KeyLe(KeyOf(keys, x), KeyOf(keys, x));
      forall k | 0 <= k < |tail| && KeyOf(keys, s[0]) == KeyOf(keys, tail[k])
        ensures s[0] < tail[k]
      {
        var j :| 0 <= j < |s[1..]| && s[1..][j] == tail[k];
        assert s[j + 1] == tail[k];
      }
      ConsStable(s[0], tail, keys);
    }
  }

  /** A row put in front of a stable order keeps it stable when it precedes every row it ties with. */
  lemma ConsStable(h: nat, t: seq<nat>, keys: seq<RowKey>)
    requires Stable(t, keys)
    requires forall k :: 0 <= k < |t| && KeyOf(keys, h) == KeyOf(keys, t[k]) ==> h < t[k]
    ensures Stable([h] + t, keys)
  {
    var r := [h] + t;
    forall a, b | 0 <= a < b < |r| && KeyOf(keys, r[a]) == KeyOf(keys, r[b])
      ensures r[a] < r[b]
    {
      assert r[b] == t[b - 1];
      if a > 0 {
        assert r[a] == t[a - 1];
      }
    }
  }

  /** Insertion sort of increasing row numbers is stable. */
  lemma {:induction false} SortRowsStable(s: seq<nat>, keys: seq<RowKey>)
    requires forall i, j :: 0 <= i < j < |s| ==> s[i] < s[j]
    ensures Stable(SortRows(s, keys), keys)
  {
    if s != [] {
      var t := SortRows(s[1..], keys);
      SortRowsStable(s[1..], keys);
      SortRowsIsSortBy(s[1..], keys);
      forall k | 0 <= k < |t|
        ensures s[0] < t[k]
      {
        assert t[k] in multiset(s[1..]);
        var j :| 0 <= j < |s[1..]| && s[1..][j] == t[k];
        assert s[j + 1] == t[k];
      }
      InsertRowStable(s[0], t, keys);
    }
  }

  /**
   * The order is a permutation of the rows, sorted by score then minutes,
   * and rows with equal keys stay in pool order.
   */
  lemma RankOrderSpec(keys: seq<RowKey>)
    ensures var order: seq<nat> := RankOrder(keys);
      && (forall x: nat :: multiset(order)[x] == if x < |keys| then 1 else 0)
      && (forall k :: 0 <= k < |order| ==> order[k] < |keys|)
      && SortedBy(order, ByRow(keys))
      && (forall a, b :: 0 <= a < b < |order| && keys[order[a]] == keys[order[b]] ==> order[a] < order[b])
  {
    SortRowsStable(Range(|keys|), keys);
    var order: seq<nat> := RankOrder(keys);
    SortRowsIsSortBy(Range(|keys|), keys);
    assert multiset(order) == multiset(Range(|keys|));
    forall x: nat
      ensures multiset(order)[x] == if x < |keys| then 1 else 0
    {
      RangeCount(|keys|, x);
    }
    forall k | 0 <= k < |order|
      ensures order[k] < |keys|
    {
      assert order[k] in multiset(order);
    }
    ByRowPreorder(keys);
    SortBySorted(Range(|keys|), ByRow(keys));
  }

  /** The sort key of every row. */
  function SortKeys(t: Table): (keys: seq<RowKey>)
    ensures |keys| == |t.rows|
    ensures forall i :: 0 <= i < |t.rows| ==>
      keys[i] == (AsReal(Get(t, i, "total_score")), AsReal(Get(t, i, "minutes")))
  {
    seq(|t.rows|, i requires 0 <= i < |t.rows| => (AsReal(Get(t, i, "total_score")), AsReal(Get(t, i, "minutes"))))
  }

  lemma RankOrderBelow(keys: seq<RowKey>)
    ensures forall k :: 0 <= k < |RankOrder(keys)| ==> RankOrder(keys)[k] < |keys|
  {
    RankOrderSpec(keys);
  }

  // ------------------------------------------------------------------ output

  /** The output columns, in order; those absent from the pool are dropped. */
  const OutCols: seq<string> := [
    "player_id", "team_id", "league", "season", "position_bucket", "minutes",
    "total_score",
    "sub_progression", "sub_defending", "sub_creation", "sub_finishing", "sub_security",
    "risk_flags", "risk_count",
    "evidence_1", "evidence_2", "evidence_3", "evidence_4", "evidence_5"
  ]


  /** `range(1, n + 1)` as cells. */
  function Ranks(n: nat): (r: seq<Cell>)
    ensures |r| == n && forall k :: 0 <= k < n ==> r[k] == Num((k + 1) as real)
  {
    seq(n, k requires 0 <= k < n => Num((k + 1) as real))
  }

  /** The output columns of the enriched pool, tagged with the role. */
  function Tagged(e: Table, roleId: string): (r: Table)
    requires e.Shaped()
    ensures r.Shaped() && |r.rows| == |e.rows|
  {
    var out := Select(e, PresentColumns(OutCols, e.columns));
    SetColumn(out, "role_id", Constant(|out.rows|, Str(roleId)))
  }

  /** The rows of the top `top_n`, as positions in the enriched pool. */
  function TopRows(e: Table, roleId: string, topN: int): (top: seq<nat>)
    requires e.Shaped()
    ensures |top| == PyTakeCount(|e.rows|, topN)
    ensures forall k :: 0 <= k < |top| ==> top[k] < |e.rows|
  {
    var keys := SortKeys(Tagged(e, roleId));
    RankOrderBelow(keys);
    PyTake(RankOrder(keys), topN)
  }

  /** Select, tag, sort, cut and rank: `build_shortlist` after the pool is enriched. */
  function Finish(e: Table, roleId: string, topN: int): (r: Table)
    requires e.Shaped()
  {
    var picked := Pick(Tagged(e, roleId), TopRows(e, roleId, topN));
    SetColumn(picked, "rank", Ranks(|picked.rows|))
  }

  /** `build_shortlist(df, role_id, top_n)`. */
  function BuildShortlistSpec(df: Table, roleId: string, topN: int): (r: Result<Table>)
    requires df.Shaped()
  {
    var scoreCol := Roles.ScoreName(roleId);
    if scoreCol !in df.columns then Err(MissingColumn(scoreCol))
    else
      var pool := Where(df, NotNullMask(df, scoreCol));
      if pool.rows == [] then Ok(Table([], []))
      else
        match Enrich(pool, roleId)
        case Err(err) => Err(err)
        case Ok(e) => Ok(Finish(e, roleId, topN))
  }

  // ------------------------------------------------------------- properties

  /** Two tables agree, in row `i`, on every column the shortlist does not add. */
  ghost predicate SameBase(t: Table, u: Table, i: int) {
    forall d :: !Derived(d) ==> Get(u, i, d) == Get(t, i, d) && (d in u.columns <==> d in t.columns)
  }

  /** The subscore table: distinct names, and inputs that are not subscores themselves. */
  predicate SubsWellFormed(subs: seq<(string, seq<string>)>) {
    && (forall b, c :: 0 <= b < c < |subs| ==> subs[b].0 != subs[c].0)
    && (forall b, c :: 0 <= b < |subs| && c in subs[b].1 ==> !StartsWith(c, "sub_"))
  }

  /** The first letters of an added column's name. */
  lemma DerivedShape(d: string)
    ensures Derived(d) ==>
      && |d| >= 3
      && ((d[0] == 't' && d[1] == 'o') || (d[0] == 'r' && d[1] == 'i') ||
          (d[0] == 's' && d[1] == 'u' && d[2] == 'b') || (d[0] == 'e' && d[1] == 'v'))
  {
    if StartsWith(d, "sub_") {
      assert d[..4] == "sub_";
      assert d[0] == d[..4][0] && d[1] == d[..4][1] && d[2] == d[..4][2];
    }
    if StartsWith(d, "evidence_") {
      assert d[..9] == "evidence_";
      assert d[0] == d[..9][0] && d[1] == d[..9][1];
    }
  }

  lemma PctNotSub(c: string)
    requires |c| > 0 && c[0] == 'p'
    ensures !StartsWith(c, "sub_")
  {
  }

  lemma SubscoresWellFormed(roleId: string)
    ensures SubscoresOf(Subscores, roleId).Some? ==> SubsWellFormed(SubscoresOf(Subscores, roleId).value)
  {
    var r := SubscoresOf(Subscores, roleId);
    if r.Some? {
      var j :| 0 <= j < |Subscores| && Subscores[j] == (roleId, r.value);
      if j == 0 {
        SubsBpcb();
      } else if j == 1 {
        SubsDlp();
      } else {
        SubsWcr();
      }
    }
  }

  /** Names are distinct and every input is a `pct_*` column. */
  lemma SubsFromPct(subs: seq<(string, seq<string>)>)
    requires forall b, c :: 0 <= b < c < |subs| ==> subs[b].0 != subs[c].0
    requires forall b, k :: 0 <= b < |subs| && 0 <= k < |subs[b].1| ==> |subs[b].1[k]| > 0 && subs[b].1[k][0] == 'p'
    ensures SubsWellFormed(subs)
  {
    forall b, c | 0 <= b < |subs| && c in subs[b].1
      ensures !StartsWith(c, "sub_")
    {
      PctNotSub(c);
    }
  }

  lemma SubsBpcb()
    ensures SubsWellFormed(Subscores[0].1)
  {
    SubsFromPct(Subscores[0].1);
  }

  lemma SubsDlp()
    ensures SubsWellFormed(Subscores[1].1)
  {
    SubsFromPct(Subscores[1].1);
  }

  lemma SubsWcr()
    ensures SubsWellFormed(Subscores[2].1)
  {
    SubsFromPct(Subscores[2].1);
  }

  /** Every role's KPIs are five base columns. */
  lemma KpisWellFormed(roleId: string)
    ensures KpisOf(roleId).Some? ==> var kpis := KpisOf(roleId).value;
      && |kpis| == 5
      && forall b :: 0 <= b < |kpis| ==> PlainKpi(kpis[b])
  {
    if KpisOf(roleId).Some? {
      var kpis := KpisOf(roleId).value;
      forall b | 0 <= b < |kpis|
        ensures PlainKpi(kpis[b])
      {
        DerivedShape(kpis[b]);
        DerivedShape("pct_" + kpis[b]);
        assert ("pct_" + kpis[b])[0] == 'p';
      }
    }
  }

  /** The columns the risk flags read are not added by the shortlist. */
  lemma FlagInputsBase()
    ensures !Derived("minutes") && !Derived("age") && !Derived("pct_errors_p90") && !Derived("pct_mis_dis_p90")
  {
    DerivedShape("minutes");
    DerivedShape("age");
    DerivedShape("pct_errors_p90");
    DerivedShape("pct_mis_dis_p90");
  }

  /** The raised flags depend only on columns the shortlist does not add. */
  lemma {:induction false} RaisedInFrame(t: Table, u: Table, i: int, fs: seq<string>)
    requires SameBase(t, u, i)
    ensures RaisedIn(u, i, fs) == RaisedIn(t, i, fs)
  {
    if fs != [] {
      FlagInputsBase();
      RaisedInFrame(t, u, i, fs[1..]);
    }
  }

  lemma SubscoredFrame(pool: Table, roleId: string, subs: seq<(string, seq<string>)>, i: int)
    requires pool.Shaped() && 0 <= i < |pool.rows|
    ensures SameBase(pool, Subscored(pool, roleId, subs), i)
  {
    var sec := SecurityInputs(roleId);
    var t1 := SetColumn(pool, "sub_security", MeanPctColumn(pool, sec.0, sec.1));
    forall d | !Derived(d)
      ensures Get(Subscored(pool, roleId, subs), i, d) == Get(pool, i, d)
      ensures d in Subscored(pool, roleId, subs).columns <==> d in pool.columns
    {
      forall a | 0 <= a < |subs| && subs[a].0 != "security"
        ensures d != "sub_" + subs[a].0
      {
        StartsWithConcat("sub_", subs[a].0);
      }
      StartsWithConcat("sub_", "security");
      AddSubscoresFrame(t1, subs, i, d);
    }
  }

  lemma AddEvidenceBase(t: Table, kpis: seq<string>, i: int)
    requires t.Shaped() && |kpis| <= 9 && 0 <= i < |t.rows|
    ensures SameBase(t, AddEvidence(t, kpis, 1), i)
  {
    forall d | !Derived(d)
      ensures Get(AddEvidence(t, kpis, 1), i, d) == Get(t, i, d)
      ensures d in AddEvidence(t, kpis, 1).columns <==> d in t.columns
    {
      forall m | 1 <= m < 1 + |kpis|
        ensures d != EvidenceName(m)
      {
        StartsWithConcat("evidence_", [('0' as int + m) as char]);
      }
      AddEvidenceFrame(t, kpis, 1, i, d);
    }
  }

  lemma SameBaseTrans(t: Table, u: Table, v: Table, i: int)
    requires SameBase(t, u, i) && SameBase(u, v, i)
    ensures SameBase(t, v, i)
  {
  }

  /** Risk flags and evidence change neither the base columns nor the earlier added ones. */
  lemma TailFrame(t: Table, kpis: seq<string>, i: int, d: string)
    requires t.Shaped() && |kpis| <= 9 && 0 <= i < |t.rows|
    requires d != "risk_flags" && d != "risk_count" && !StartsWith(d, "evidence_")
    ensures Get(AddEvidence(Flagged(t), kpis, 1), i, d) == Get(t, i, d)
    ensures d in AddEvidence(Flagged(t), kpis, 1).columns <==> d in t.columns
  {
    FlaggedFrame(t, i, d);
    NotEvidenceName(d);
    AddEvidenceFrame(Flagged(t), kpis, 1, i, d);
  }

  lemma FlaggedFrame(t: Table, i: int, d: string)
    requires t.Shaped() && 0 <= i < |t.rows|
    requires d != "risk_flags" && d != "risk_count"
    ensures Get(Flagged(t), i, d) == Get(t, i, d) && (d in Flagged(t).columns <==> d in t.columns)
  {
  }

  lemma NotEvidenceName(d: string)
    requires !StartsWith(d, "evidence_")
    ensures forall m :: 1 <= m <= 9 ==> d != EvidenceName(m)
  {
    forall m | 1 <= m <= 9
      ensures d != EvidenceName(m)
    {
      StartsWithConcat("evidence_", [('0' as int + m) as char]);
    }
  }

  lemma TotalledBase(t: Table, roleId: string, i: int)
    requires t.Shaped() && 0 <= i < |t.rows|
    ensures SameBase(t, Totalled(t, roleId), i)
  {
  }

  lemma FlaggedBase(t: Table, i: int)
    requires t.Shaped() && 0 <= i < |t.rows|
    ensures SameBase(t, Flagged(t), i)
  {
    var t4 := SetColumn(t, "risk_flags", RiskFlagsColumn(t));
    SetDerivedBase(t, "risk_flags", RiskFlagsColumn(t), i);
    SetDerivedBase(t4, "risk_count", RiskCountColumn(t4), i);
    SameBaseTrans(t, t4, Flagged(t), i);
  }

  /** Writing an added column leaves every other column as it was. */
  lemma SetDerivedBase(t: Table, c: string, cells: seq<Cell>, i: int)
    requires t.Shaped() && |cells| == |t.rows| && Derived(c)
    ensures SameBase(t, SetColumn(t, c, cells), i)
  {
    var u := SetColumn(t, c, cells);
    forall d | !Derived(d)
      ensures Get(u, i, d) == Get(t, i, d) && (d in u.columns <==> d in t.columns)
    {
      assert d != c;
    }
  }

  /** Enrichment leaves every column it does not add as it was in the pool. */
  lemma EnrichFrame(pool: Table, roleId: string, i: int)
    requires pool.Shaped() && 0 <= i < |pool.rows| && Enrich(pool, roleId).Ok?
    ensures SameBase(pool, Enrich(pool, roleId).value, i)
  {
    EnrichStages(pool, roleId);
    var subs := SubscoresOf(Subscores, roleId).value;
    var t2 := Subscored(pool, roleId, subs);
    var t3 := Totalled(t2, roleId);
    var t5 := Flagged(t3);
    var kpis := KpisOf(roleId).value;
    SubscoredFrame(pool, roleId, subs, i);
    TotalledBase(t2, roleId, i);
    FlaggedBase(t3, i);
    AddEvidenceBase(t5, PyTake(kpis, 5), i);
    SameBaseTrans(pool, t2, t3, i);
    SameBaseTrans(pool, t3, t5, i);
    SameBaseTrans(pool, t5, Enrich(pool, roleId).value, i);
  }

  lemma RoleKnown(roleId: string)
    ensures SubscoresOf(Subscores, roleId).Some? <==> KpisOf(roleId).Some?
  {
    var r := SubscoresOf(Subscores, roleId);
    if r.Some? {
      assert (roleId, r.value) in Subscores;
    }
  }

  /** The stages of a successful enrichment. */
  lemma EnrichStages(pool: Table, roleId: string)
    requires pool.Shaped() && Enrich(pool, roleId).Ok?
    ensures SubscoresOf(Subscores, roleId).Some? && KpisOf(roleId).Some?
    ensures Enrich(pool, roleId).value ==
      AddEvidence(Flagged(Totalled(Subscored(pool, roleId, SubscoresOf(Subscores, roleId).value), roleId)),
                  PyTake(KpisOf(roleId).value, 5), 1)
  {
  }

  /** `total_score` is the role score unchanged. */
  lemma EnrichTotal(pool: Table, roleId: string, i: int)
    requires pool.Shaped() && 0 <= i < |pool.rows| && Enrich(pool, roleId).Ok?
    ensures Get(Enrich(pool, roleId).value, i, "total_score") == Get(pool, i, Roles.ScoreName(roleId))
  {
    EnrichStages(pool, roleId);
    var subs := SubscoresOf(Subscores, roleId).value;
    var t2 := Subscored(pool, roleId, subs);
    var t3 := Totalled(t2, roleId);
    var score := Roles.ScoreName(roleId);
    ScoreNotDerived(roleId);
    SubscoredFrame(pool, roleId, subs, i);
    assert Get(t2, i, score) == Get(pool, i, score);
    assert Get(t3, i, "total_score") == Get(t2, i, score);
    NotEvidenceLetter("total_score");
    TailFrame(t3, PyTake(KpisOf(roleId).value, 5), i, "total_score");
  }

  /** Only the skipped "security" entry could have written `sub_security`. */
  lemma SecurityNameFree(subs: seq<(string, seq<string>)>)
    ensures forall a :: 0 <= a < |subs| && subs[a].0 != "security" ==> "sub_security" != "sub_" + subs[a].0
  {
    assert "sub_" + "security" == "sub_security";
    forall a | 0 <= a < |subs| && subs[a].0 != "security"
      ensures "sub_security" != "sub_" + subs[a].0
    {
      SubNameInjective("security", subs[a].0);
    }
  }

  lemma ScoreNotDerived(roleId: string)
    ensures !Derived(Roles.ScoreName(roleId))
  {
    var score := Roles.ScoreName(roleId);
    assert score[0] == 's' && score[1] == 'c';
    DerivedShape(score);
  }

  lemma NotEvidenceLetter(d: string)
    requires |d| > 0 && d[0] != 'e'
    ensures !StartsWith(d, "evidence_")
  {
  }

  /** `sub_security` is the mean of the role's security inputs, with the listed one inverted. */
  lemma EnrichSecurity(pool: Table, roleId: string, i: int)
    requires pool.Shaped() && 0 <= i < |pool.rows| && Enrich(pool, roleId).Ok?
    ensures Get(Enrich(pool, roleId).value, i, "sub_security") ==
      MeanPct(pool, i, SecurityInputs(roleId).0, SecurityInputs(roleId).1)
  {
    EnrichStages(pool, roleId);
    var subs := SubscoresOf(Subscores, roleId).value;
    var sec := SecurityInputs(roleId);
    var t1 := SetColumn(pool, "sub_security", MeanPctColumn(pool, sec.0, sec.1));
    var t2 := Subscored(pool, roleId, subs);
    SecurityNameFree(subs);
    AddSubscoresFrame(t1, subs, i, "sub_security");
    NotEvidenceLetter("sub_security");
    TailFrame(Totalled(t2, roleId), PyTake(KpisOf(roleId).value, 5), i, "sub_security");
  }

  /** Every other subscore of the role is the plain mean of its present percentile columns. */
  lemma EnrichSubscore(pool: Table, roleId: string, i: int, a: nat)
    requires pool.Shaped() && 0 <= i < |pool.rows| && Enrich(pool, roleId).Ok?
    requires a < |SubscoresOf(Subscores, roleId).value|
    requires SubscoresOf(Subscores, roleId).value[a].0 != "security"
    ensures var sub := SubscoresOf(Subscores, roleId).value[a];
      Get(Enrich(pool, roleId).value, i, "sub_" + sub.0) == MeanPct(pool, i, sub.1, [])
  {
    var subs := SubscoresOf(Subscores, roleId).value;
    var d := "sub_" + subs[a].0;
    assert d[0] == 's';
    EnrichKeepsSub(pool, roleId, i, d);
    SubscoresWellFormed(roleId);
    SubscoredValue(pool, roleId, subs, i, a);
  }

  /** A column starting with 's' is as the subscore stage left it. */
  lemma EnrichKeepsSub(pool: Table, roleId: string, i: int, d: string)
    requires pool.Shaped() && 0 <= i < |pool.rows| && Enrich(pool, roleId).Ok?
    requires |d| > 0 && d[0] == 's'
    ensures SubscoresOf(Subscores, roleId).Some?
    ensures Get(Enrich(pool, roleId).value, i, d) == Get(Subscored(pool, roleId, SubscoresOf(Subscores, roleId).value), i, d)
  {
    EnrichStages(pool, roleId);
    var t2 := Subscored(pool, roleId, SubscoresOf(Subscores, roleId).value);
    NotEvidenceLetter(d);
    TailFrame(Totalled(t2, roleId), PyTake(KpisOf(roleId).value, 5), i, d);
  }

  /** The subscore stage writes each non-security subscore as the mean over the pool's columns. */
  lemma SubscoredValue(pool: Table, roleId: string, subs: seq<(string, seq<string>)>, i: int, a: nat)
    requires pool.Shaped() && 0 <= i < |pool.rows| && a < |subs| && subs[a].0 != "security"
    requires SubsWellFormed(subs)
    ensures Get(Subscored(pool, roleId, subs), i, "sub_" + subs[a].0) == MeanPct(pool, i, subs[a].1, [])
  {
    var sec := SecurityInputs(roleId);
    var t1 := SetColumn(pool, "sub_security", MeanPctColumn(pool, sec.0, sec.1));
    AddSubscoresValue(t1, subs, i, a);
    forall c | c in subs[a].1
      ensures Get(t1, i, c) == Get(pool, i, c)
    {
      assert !StartsWith(c, "sub_");
    }
    RowValuesFrame(pool, t1, i, subs[a].1, []);
  }

  /** The pool and its subscored, totalled stage agree on every base column. */
  lemma TotalledFrame(pool: Table, roleId: string, subs: seq<(string, seq<string>)>, i: int)
    requires pool.Shaped() && 0 <= i < |pool.rows|
    ensures SameBase(pool, Totalled(Subscored(pool, roleId, subs), roleId), i)
  {
    var t2 := Subscored(pool, roleId, subs);
    SubscoredFrame(pool, roleId, subs, i);
    TotalledBase(t2, roleId, i);
    SameBaseTrans(pool, t2, Totalled(t2, roleId), i);
  }

  /** Which error a non-empty pool's enrichment raises, and that it raises one only then. */
  lemma EnrichOutcome(pool: Table, roleId: string)
    requires pool.Shaped() && |pool.rows| > 0
    ensures var r := Enrich(pool, roleId);
      && (r.Err? <==> SubscoresOf(Subscores, roleId).None? || "minutes" !in pool.columns || "age" !in pool.columns)
      && (SubscoresOf(Subscores, roleId).None? ==> r == Err(UnknownRole(roleId)))
      && (SubscoresOf(Subscores, roleId).Some? && "minutes" !in pool.columns ==> r == Err(MissingColumn("minutes")))
      && (SubscoresOf(Subscores, roleId).Some? && "minutes" in pool.columns && "age" !in pool.columns ==>
            r == Err(MissingColumn("age")))
  {
    RoleKnown(roleId);
    if SubscoresOf(Subscores, roleId).Some? {
      TotalledFrame(pool, roleId, SubscoresOf(Subscores, roleId).value, 0);
      FlagInputsBase();
    }
  }

  /** `risk_flags` joins the raised flags; `risk_count` counts them. */
  lemma EnrichRisk(pool: Table, roleId: string, i: int)
    requires pool.Shaped() && 0 <= i < |pool.rows| && Enrich(pool, roleId).Ok?
    ensures Get(Enrich(pool, roleId).value, i, "risk_flags") == Str(RiskFlags(pool, i))
    ensures Get(Enrich(pool, roleId).value, i, "risk_count") == Num(|RiskFlagList(pool, i)| as real)
  {
    EnrichStages(pool, roleId);
    var subs := SubscoresOf(Subscores, roleId).value;
    var t3 := Totalled(Subscored(pool, roleId, subs), roleId);
    var kpis := PyTake(KpisOf(roleId).value, 5);
    TotalledFrame(pool, roleId, subs, i);
    RaisedInFrame(pool, t3, i, FlagOrder);
    RiskCountSpec(pool, i);
    var t4 := SetColumn(t3, "risk_flags", RiskFlagsColumn(t3));
    assert Get(Flagged(t3), i, "risk_flags") == Str(RiskFlags(t3, i));
    assert Get(Flagged(t3), i, "risk_count") == RiskCountCell(Get(t4, i, "risk_flags"));
    NotEvidenceLetter("risk_flags");
    NotEvidenceLetter("risk_count");
    NotEvidenceName("risk_flags");
    NotEvidenceName("risk_count");
    AddEvidenceFrame(Flagged(t3), kpis, 1, i, "risk_flags");
    AddEvidenceFrame(Flagged(t3), kpis, 1, i, "risk_count");
  }

  /** `evidence_<a + 1>` is present exactly when the KPI's raw and percentile values are. */
  lemma EnrichEvidence(pool: Table, roleId: string, i: int, a: nat)
    requires pool.Shaped() && 0 <= i < |pool.rows| && Enrich(pool, roleId).Ok? && a < 5
    ensures KpisOf(roleId).Some? && |KpisOf(roleId).value| == 5
    ensures Get(Enrich(pool, roleId).value, i, EvidenceName(a + 1)) == EvidenceCell(pool, i, KpisOf(roleId).value[a])
  {
    EnrichStages(pool, roleId);
    KpisWellFormed(roleId);
    var subs := SubscoresOf(Subscores, roleId).value;
    var t3 := Totalled(Subscored(pool, roleId, subs), roleId);
    var kpis := KpisOf(roleId).value;
    assert PyTake(kpis, 5) == kpis;
    TotalledFrame(pool, roleId, subs, i);
    FlaggedBase(t3, i);
    SameBaseTrans(pool, t3, Flagged(t3), i);
    EvidenceFromBase(pool, Flagged(t3), kpis, i, a);
  }

  /** Evidence added to a table with the pool's base columns reads the pool's cells. */
  lemma EvidenceFromBase(pool: Table, u: Table, kpis: seq<string>, i: int, a: nat)
    requires u.Shaped() && 0 <= i < |u.rows| && |kpis| <= 9 && a < |kpis|
    requires forall b :: 0 <= b < |kpis| ==> PlainKpi(kpis[b])
    requires SameBase(pool, u, i)
    ensures Get(AddEvidence(u, kpis, 1), i, EvidenceName(a + 1)) == EvidenceCell(pool, i, kpis[a])
  {
    AddEvidenceValue(u, kpis, 1, i, a);
    EvidenceCellFrame(pool, u, i, kpis[a]);
  }

  /** The tagged table reads every output column as the pool does, plus `role_id`. */
  lemma TaggedGet(e: Table, roleId: string, i: int)
    requires e.Shaped() && 0 <= i < |e.rows|
    ensures Tagged(e, roleId).columns == PresentColumns(OutCols, e.columns) + ["role_id"]
    ensures Get(Tagged(e, roleId), i, "role_id") == Str(roleId)
    ensures forall c :: c in OutCols ==> Get(Tagged(e, roleId), i, c) == Get(e, i, c)
  {
    var cols := PresentColumns(OutCols, e.columns);
    var out := Select(e, cols);
    OutColsNames();
    forall c | c in OutCols
      ensures Get(Tagged(e, roleId), i, c) == Get(e, i, c)
    {
      if c in e.columns {
        SelectGet(e, cols, i, c);
      }
    }
  }

  lemma SortKeysTagged(e: Table, roleId: string)
    requires e.Shaped()
    ensures SortKeys(Tagged(e, roleId)) == SortKeys(e)
  {
    forall i | 0 <= i < |e.rows|
      ensures SortKeys(Tagged(e, roleId))[i] == SortKeys(e)[i]
    {
      TaggedGet(e, roleId, i);
    }
  }

  /** The output holds the present output columns, then `role_id` and `rank`, and `top_n` rows (Python's `head`). */
  lemma FinishShape(e: Table, roleId: string, topN: int)
    requires e.Shaped()
    ensures var r := Finish(e, roleId, topN);
      && r.Shaped()
      && r.columns == PresentColumns(OutCols, e.columns) + ["role_id", "rank"]
      && |r.rows| == PyTakeCount(|e.rows|, topN)
  {
    var t := Tagged(e, roleId);
    var top := TopRows(e, roleId, topN);
    var picked := Pick(t, top);
    TaggedColumns(e, roleId);
    RankAdded(picked);
  }

  lemma RankAdded(p: Table)
    requires p.Shaped() && "rank" !in p.columns
    ensures var r := SetColumn(p, "rank", Ranks(|p.rows|));
      r.Shaped() && r.columns == p.columns + ["rank"] && |r.rows| == |p.rows|
  {
  }

  lemma OutColsNames()
    ensures "role_id" !in OutCols && "rank" !in OutCols
  {
  }

  lemma TaggedColumns(e: Table, roleId: string)
    requires e.Shaped()
    ensures Tagged(e, roleId).columns == PresentColumns(OutCols, e.columns) + ["role_id"]
    ensures "rank" !in Tagged(e, roleId).columns
  {
    OutColsNames();
    var cols := PresentColumns(OutCols, e.columns);
    assert "role_id" !in cols && "rank" !in cols;
  }

  /** Output row `k` is ranked `k + 1`, carries the role, and copies pool row `top[k]`. */
  lemma FinishRow(e: Table, roleId: string, topN: int, k: int)
    requires e.Shaped() && 0 <= k < |Finish(e, roleId, topN).rows|
    ensures var r := Finish(e, roleId, topN); var top := TopRows(e, roleId, topN);
      && Get(r, k, "rank") == Num((k + 1) as real)
      && Get(r, k, "role_id") == Str(roleId)
      && (forall c :: c in OutCols ==> Get(r, k, c) == Get(e, top[k], c))
  {
    var top := TopRows(e, roleId, topN);
    var t := Tagged(e, roleId);
    var picked := Pick(t, top);
    TaggedGet(e, roleId, top[k]);
    TaggedColumns(e, roleId);
    OutColsNames();
    assert Get(picked, k, "role_id") == Get(t, top[k], "role_id");
    forall c | c in OutCols
      ensures Get(picked, k, c) == Get(t, top[k], c)
    {
    }
  }

  /**
   * The chosen rows are distinct, ordered by score then minutes (descending,
   * missing last), and no row left out is ordered before any row kept.
   */
  lemma FinishOrder(e: Table, roleId: string, topN: int)
    requires e.Shaped()
    ensures var top := TopRows(e, roleId, topN); var keys := SortKeys(e);
      && Distinct(top)
      && (forall a, b :: 0 <= a < b < |top| ==> KeyLe(keys[top[a]], keys[top[b]]))
      && (forall j, k :: 0 <= j < |e.rows| && j !in top && 0 <= k < |top| ==> KeyLe(keys[top[k]], keys[j]))
  {
    var keys := SortKeys(e);
    SortKeysTagged(e, roleId);
    var order: seq<nat> := RankOrder(keys);
    var top: seq<nat> := TopRows(e, roleId, topN);
    RankOrderSpec(keys);
    assert top == order[..|top|];
    forall x ensures multiset(order)[x] <= 1 {}
    TopPrefix(order, |top|, ByRow(keys));
    forall a, b | 0 <= a < b < |top|
      ensures KeyLe(keys[top[a]], keys[top[b]])
    {
      assert ByRow(keys)(order[a], order[b]);
    }
    forall j, k | 0 <= j < |e.rows| && j !in top && 0 <= k < |top|
      ensures KeyLe(keys[top[k]], keys[j])
    {
      assert multiset(order)[j] == 1;
      assert j in order;
      assert ByRow(keys)(order[k], j);
    }
  }

  /**
   * The outcomes of `build_shortlist`: a missing score column is an error, an
   * empty pool an empty table, and otherwise an unknown role or a missing
   * `minutes` or `age` column is an error, in that order.
   */
  lemma ShortlistOutcome(df: Table, roleId: string, topN: int)
    requires df.Shaped()
    ensures var sc := Roles.ScoreName(roleId); var r := BuildShortlistSpec(df, roleId, topN);
      && (sc !in df.columns ==> r == Err(MissingColumn(sc)))
      && (sc in df.columns && |Kept(NotNullMask(df, sc))| == 0 ==> r == Ok(Table([], [])))
    ensures var sc := Roles.ScoreName(roleId); var r := BuildShortlistSpec(df, roleId, topN);
      var known := SubscoresOf(Subscores, roleId).Some?;
      sc in df.columns && |Kept(NotNullMask(df, sc))| > 0 ==>
        && (r.Err? <==> !known || "minutes" !in df.columns || "age" !in df.columns)
        && (!known ==> r == Err(UnknownRole(roleId)))
        && (known && "minutes" !in df.columns ==> r == Err(MissingColumn("minutes")))
        && (known && "minutes" in df.columns && "age" !in df.columns ==> r == Err(MissingColumn("age")))
  {
    var sc := Roles.ScoreName(roleId);
    if sc in df.columns {
      var pool := Where(df, NotNullMask(df, sc));
      if |pool.rows| > 0 {
        EnrichOutcome(pool, roleId);
      }
    }
  }

  /** The output rows are ordered by score then minutes, descending with missing values last. */
  lemma FinishSorted(e: Table, roleId: string, topN: int)
    requires e.Shaped()
    ensures var r := Finish(e, roleId, topN);
      forall a, b :: 0 <= a < b < |r.rows| ==> KeyLe(SortKeys(r)[a], SortKeys(r)[b])
  {
    var r := Finish(e, roleId, topN);
    var top := TopRows(e, roleId, topN);
    FinishShape(e, roleId, topN);
    FinishOrder(e, roleId, topN);
    forall k | 0 <= k < |r.rows|
      ensures SortKeys(r)[k] == SortKeys(e)[top[k]]
    {
      FinishRow(e, roleId, topN, k);
    }
  }

  /** A successful shortlist of a non-empty pool is the enriched pool, finished. */
  lemma ShortlistStages(df: Table, roleId: string, topN: int)
    requires df.Shaped() && BuildShortlistSpec(df, roleId, topN).Ok?
    requires Roles.ScoreName(roleId) in df.columns && |Kept(NotNullMask(df, Roles.ScoreName(roleId)))| > 0
    ensures var pool := Where(df, NotNullMask(df, Roles.ScoreName(roleId)));
      && Enrich(pool, roleId).Ok?
      && BuildShortlistSpec(df, roleId, topN).value == Finish(Enrich(pool, roleId).value, roleId, topN)
  {
  }

  /**
   * A successful shortlist has `top_n` of the scored rows, ranked 1, 2, ...,
   * tagged with the role, each with a non-null `total_score`, and ordered by
   * `total_score` then `minutes`, both descending with missing values last.
   */
  lemma ShortlistRows(df: Table, roleId: string, topN: int)
    requires df.Shaped() && BuildShortlistSpec(df, roleId, topN).Ok?
    requires Roles.ScoreName(roleId) in df.columns && |Kept(NotNullMask(df, Roles.ScoreName(roleId)))| > 0
    ensures var r := BuildShortlistSpec(df, roleId, topN).value;
      && |r.rows| == PyTakeCount(|Kept(NotNullMask(df, Roles.ScoreName(roleId)))|, topN)
      && (forall k :: 0 <= k < |r.rows| ==>
            && Get(r, k, "rank") == Num((k + 1) as real)
            && Get(r, k, "role_id") == Str(roleId)
            && Get(r, k, "total_score") != Null)
      && (forall a, b :: 0 <= a < b < |r.rows| ==> KeyLe(SortKeys(r)[a], SortKeys(r)[b]))
  {
    var sc := Roles.ScoreName(roleId);
    var mask := NotNullMask(df, sc);
    var pool := Where(df, mask);
    ShortlistStages(df, roleId, topN);
    var e := Enrich(pool, roleId).value;
    var r := Finish(e, roleId, topN);
    FinishShape(e, roleId, topN);
    FinishSorted(e, roleId, topN);
    forall k | 0 <= k < |r.rows|
      ensures Get(r, k, "rank") == Num((k + 1) as real)
      ensures Get(r, k, "role_id") == Str(roleId)
      ensures Get(r, k, "total_score") != Null
    {
      ShortlistRow(df, roleId, topN, k);
    }
  }

  lemma TotalScoreOut()
    ensures "total_score" in OutCols
  {
  }

  /** One shortlisted row: its rank, its role, and a score that is not null. */
  lemma ShortlistRow(df: Table, roleId: string, topN: int, k: int)
    requires df.Shaped()
    requires Roles.ScoreName(roleId) in df.columns && |Kept(NotNullMask(df, Roles.ScoreName(roleId)))| > 0
    requires var pool := Where(df, NotNullMask(df, Roles.ScoreName(roleId)));
      Enrich(pool, roleId).Ok? && 0 <= k < |Finish(Enrich(pool, roleId).value, roleId, topN).rows|
    ensures var r := Finish(Enrich(Where(df, NotNullMask(df, Roles.ScoreName(roleId))), roleId).value, roleId, topN);
      && Get(r, k, "rank") == Num((k + 1) as real)
      && Get(r, k, "role_id") == Str(roleId)
      && Get(r, k, "total_score") != Null
  {
    var sc := Roles.ScoreName(roleId);
    var mask := NotNullMask(df, sc);
    var pool := Where(df, mask);
    var e := Enrich(pool, roleId).value;
    var top := TopRows(e, roleId, topN);
    FinishRow(e, roleId, topN, k);
    TotalScoreOut();
    EnrichTotal(pool, roleId, top[k]);
    WhereGet(df, mask, top[k], sc);
  }

  /** `build_shortlist`, step by step: subscores and evidence are filled in column by column. */
  method BuildShortlist(df: Table, roleId: string, topN: int) returns (r: Result<Table>)
    requires df.Shaped()
    ensures r == BuildShortlistSpec(df, roleId, topN)
  {
    var scoreCol := Roles.ScoreName(roleId);
    if scoreCol !in df.columns {
      return Err(MissingColumn(scoreCol));
    }
    var pool := Where(df, NotNullMask(df, scoreCol));
    if pool.rows == [] {
      return Ok(Table([], []));
    }
    var sec := SecurityInputs(roleId);
    var t := SetColumn(pool, "sub_security", MeanPctColumn(pool, sec.0, sec.1));
    var found := SubscoresOf(Subscores, roleId);
    if found.None? {
      return Err(UnknownRole(roleId));
    }
    t := FillSubscores(t, found.value);
    t := Totalled(t, roleId);
    if "minutes" !in t.columns {
      return Err(MissingColumn("minutes"));
    }
    if "age" !in t.columns {
      return Err(MissingColumn("age"));
    }
    t := Flagged(t);
    var kpis := KpisOf(roleId);
    if kpis.None? {
      return Err(UnknownRole(roleId));
    }
    t := FillEvidence(t, PyTake(kpis.value, 5));
    r := Ok(Finish(t, roleId, topN));
  }

  /** The loop over the role's subscores, skipping "security". */
  method FillSubscores(t0: Table, subs: seq<(string, seq<string>)>) returns (t: Table)
    requires t0.Shaped()
    ensures t == AddSubscores(t0, subs)
  {
    t := t0;
    var k := 0;
    while k < |subs|
      invariant 0 <= k <= |subs|
      invariant t.Shaped() && |t.rows| == |t0.rows|
      invariant AddSubscores(t, subs[k..]) == AddSubscores(t0, subs)
    {
      assert subs[k..][1..] == subs[k + 1..];
      if subs[k].0 != "security" {
        t := SetColumn(t, "sub_" + subs[k].0, MeanPctColumn(t, subs[k].1, []));
      }
      k := k + 1;
    }
  }

  /** The loop writing `evidence_1`, `evidence_2`, ... for the chosen KPIs. */
  method FillEvidence(t0: Table, chosen: seq<string>) returns (t: Table)
    requires t0.Shaped() && |chosen| <= 5
    ensures t == AddEvidence(t0, chosen, 1)
  {
    t := t0;
    var n := 0;
    while n < |chosen|
      invariant 0 <= n <= |chosen|
      invariant t.Shaped() && |t.rows| == |t0.rows|
      invariant AddEvidence(t, chosen[n..], n + 1) == AddEvidence(t0, chosen, 1)
    {
      assert chosen[n..][1..] == chosen[n + 1..];
      t := SetColumn(t, EvidenceName(n + 1), EvidenceColumn(t, chosen[n]));
      n := n + 1;
    }
  }
}
