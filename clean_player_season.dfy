/**
 * The clean player-season table: numeric playing time, a substring-based
 * position bucket, goalkeepers and low-minute rows removed, per-90 and
 * percentage features derived from the merged stat columns, and a fixed
 * keep-list of output columns.
 */
module CleanPlayerSeason {
  import opened Seqs
  import opened Text
  import opened Tables

  /** The identity key of a player season. */
  const Key: seq<string> := ["league", "season", "team", "player", "nation", "born"]

  // ---------------------------------------------------------------- buckets

  /**
   * `infer_position_bucket` of `clean_player_season.py`. A number's text form
   * holds none of the markers, so it is OTHER.
   */
  function SimpleBucket(pos: Cell): string {
    match pos
    case Null => "UNK"
    case Num(_) => "OTHER"
    case Str(p) =>
      if Contains(p, "GK") then "GK"
      else if Contains(p, "FW") then "WIDE"
      else if Contains(p, "MF") && !Contains(p, "FW") then "DMCM"
      else if Contains(p, "DF") && !Contains(p, "FW") then "CB"
      else "OTHER"
  }

  /** GK outranks FW, which outranks MF, which outranks DF; a null is UNK. */
  lemma SimpleBucketSpec(pos: Cell)
    ensures var b := SimpleBucket(pos);
      && b in {"UNK", "GK", "WIDE", "DMCM", "CB", "OTHER"}
      && (b == "UNK" <==> pos.Null?)
      && (b == "GK" <==> pos.Str? && Contains(pos.s, "GK"))
      && (b == "WIDE" <==> pos.Str? && !Contains(pos.s, "GK") && Contains(pos.s, "FW"))
      && (b == "DMCM" <==> pos.Str? && !Contains(pos.s, "GK") && !Contains(pos.s, "FW") && Contains(pos.s, "MF"))
      && (b == "CB" <==> pos.Str? && !Contains(pos.s, "GK") && !Contains(pos.s, "FW") && !Contains(pos.s, "MF")
                          && Contains(pos.s, "DF"))
  {
  }

  // ---------------------------------------------------------------- numbers

  /** `pd.to_numeric(x, errors="coerce")`: text is read as null. */
  function Numeric(c: Cell): Cell {
    if c.Num? then c else Null
  }

  function NumericColumn(t: Table, c: string): (r: seq<Cell>)
    ensures |r| == |t.rows| && forall i :: 0 <= i < |t.rows| ==> r[i] == Numeric(Get(t, i, c))
  {
    seq(|t.rows|, i requires 0 <= i < |t.rows| => Numeric(Get(t, i, c)))
  }

  /** `_to_numeric(df, cols)`: coerce the listed columns the table has. */
  function ToNumeric(t: Table, cols: seq<string>): (r: Table)
    requires t.Shaped()
    ensures r.Shaped() && |r.rows| == |t.rows|
    decreases |cols|
  {
    if cols == [] then t
    else
      var t1 := if cols[0] in t.columns then SetColumn(t, cols[0], NumericColumn(t, cols[0])) else t;
      ToNumeric(t1, cols[1..])
  }

  /** `total / nineties`; a null operand, or no nineties, gives null. */
  function Per90Cell(total: Cell, nineties: Cell): Cell {
    if total.Num? && nineties.Num? && nineties.x != 0.0 then Num(total.x / nineties.x) else Null
  }

  /** Series addition: null if either side is. */
  function SumCells(a: Cell, b: Cell): Cell {
    if a.Num? && b.Num? then Num(a.x + b.x) else Null
  }

  // --------------------------------------------------------------- features

  /** How a feature is derived: a coerced column, a per-90 rate, or the sum of two rates. */
  datatype Source = Raw(col: string) | Per90(col: string) | Per90Sum(a: string, b: string)

  /** The engineered features, in the order they are added. */
  const Features: seq<(string, Source)> := [
    ("pass_cmp_pct", Raw("passing__Total_Cmppct")),
    ("passes_att_p90", Per90("passing__Total_Att")),
    ("prog_passes_p90", Per90("passing__PrgP")),
    ("passes_final_third_p90", Per90("passing__1/3")),
    ("long_pass_cmp_pct", Raw("passing__Long_Cmppct")),
    ("key_passes_p90", Per90("passing__KP")),
    ("xa_p90", Per90("passing__Expected_xA")),
    ("crosses_pa_p90", Per90("passing__CrsPA")),
    ("tkl_int_p90", Per90("defense__Tkl+Int")),
    ("clr_p90", Per90("defense__Clr")),
    ("errors_p90", Per90("defense__Err")),
    ("aerial_win_pct", Raw("misc__Aerial_Duels_Wonpct")),
    ("prog_carries_p90", Per90("possession__Carries_PrgC")),
    ("carries_pa_p90", Per90("possession__Carries_CPA")),
    ("succ_takeons_p90", Per90("possession__Take-Ons_Succ")),
    ("takeon_succ_pct", Raw("possession__Take-Ons_Succpct")),
    ("sca_p90", Raw("goal_shot_creation__SCA_SCA90")),
    ("mis_dis_p90", Per90Sum("possession__Carries_Mis", "possession__Carries_Dis")),
    ("fouls_p90", Per90("misc__Performance_Fls"))
  ]

  /** `per90(c)` on the current table: null when `c` is absent. */
  function Per90Of(t: Table, i: int, c: string): Cell {
    if c !in t.columns then Null else Per90Cell(Numeric(Get(t, i, c)), Get(t, i, "nineties"))
  }

  function FeatureCell(t: Table, i: int, src: Source): Cell {
    match src
    case Raw(c) => Numeric(Get(t, i, c))
    case Per90(c) => Per90Of(t, i, c)
    case Per90Sum(a, b) => SumCells(Per90Of(t, i, a), Per90Of(t, i, b))
  }

  function FeatureColumn(t: Table, src: Source): (r: seq<Cell>)
    ensures |r| == |t.rows| && forall i :: 0 <= i < |t.rows| ==> r[i] == FeatureCell(t, i, src)
  {
    seq(|t.rows|, i requires 0 <= i < |t.rows| => FeatureCell(t, i, src))
  }

  /** Adds the features one by one, each computed from the table as it stands. */
  function AddFeatures(t: Table, feats: seq<(string, Source)>): (r: Table)
    requires t.Shaped()
    ensures r.Shaped() && |r.rows| == |t.rows|
    decreases |feats|
  {
    if feats == [] then t
    else AddFeatures(SetColumn(t, feats[0].0, FeatureColumn(t, feats[0].1)), feats[1..])
  }

  // ----------------------------------------------------------------- stages

  /** Numeric playing time, copied to `minutes` and `nineties`; each source column is required. */
  function Timed(base: Table): (r: Result<Table>)
    requires base.Shaped()
    ensures r.Ok? ==> r.value.Shaped() && |r.value.rows| == |base.rows|
  {
    var t := ToNumeric(base, ["Playing_Time_Min", "Playing_Time_90s"]);
    if "Playing_Time_Min" !in t.columns then Err(MissingColumn("Playing_Time_Min"))
    else
      var t1 := SetColumn(t, "minutes", ColumnCells(t, "Playing_Time_Min"));
      if "Playing_Time_90s" !in t1.columns then Err(MissingColumn("Playing_Time_90s"))
      else Ok(SetColumn(t1, "nineties", ColumnCells(t1, "Playing_Time_90s")))
  }

  /** A null `pos` column when there is none, then `position_bucket`. */
  function Bucketed(t: Table): (r: Table)
    requires t.Shaped()
    ensures r.Shaped() && |r.rows| == |t.rows|
  {
    var t1 := if "pos" in t.columns then t else SetColumn(t, "pos", Constant(|t.rows|, Null));
    SetColumn(t1, "position_bucket", BucketColumn(t1))
  }

  function BucketColumn(t: Table): (r: seq<Cell>)
    ensures |r| == |t.rows| && forall i :: 0 <= i < |t.rows| ==> r[i] == Str(SimpleBucket(Get(t, i, "pos")))
  {
    seq(|t.rows|, i requires 0 <= i < |t.rows| => Str(SimpleBucket(Get(t, i, "pos"))))
  }

  /** `df["position_bucket"] != "GK"`. */
  function NotGoalkeeper(t: Table): (m: seq<bool>)
    ensures |m| == |t.rows| && forall i :: 0 <= i < |t.rows| ==> (m[i] <==> Get(t, i, "position_bucket") != Str("GK"))
  {
    seq(|t.rows|, i requires 0 <= i < |t.rows| => Get(t, i, "position_bucket") != Str("GK"))
  }

  /** `df["minutes"] >= min_minutes`: false for a null. */
  function EnoughMinutes(t: Table, minMinutes: int): (m: seq<bool>)
    ensures |m| == |t.rows| && forall i :: 0 <= i < |t.rows| ==> (m[i] <==> AtLeast(Get(t, i, "minutes"), minMinutes as real))
  {
    seq(|t.rows|, i requires 0 <= i < |t.rows| => AtLeast(Get(t, i, "minutes"), minMinutes as real))
  }

  /** The two row filters, in order. */
  function Eligible(t: Table, minMinutes: int): (r: Table)
    requires t.Shaped()
    ensures r.Shaped()
  {
    var t1 := Where(t, NotGoalkeeper(t));
    Where(t1, EnoughMinutes(t1, minMinutes))
  }

  /** The columns kept, in order, before de-duplication and filtering. */
  const KeepList: seq<string> := Key + [
    "pos", "age",
    "minutes", "nineties", "position_bucket",
    "pass_cmp_pct", "passes_att_p90", "prog_passes_p90", "passes_final_third_p90",
    "long_pass_cmp_pct", "key_passes_p90", "xa_p90", "crosses_pa_p90",
    "tkl_int_p90", "clr_p90", "errors_p90", "aerial_win_pct",
    "prog_carries_p90", "carries_pa_p90", "succ_takeons_p90", "takeon_succ_pct",
    "sca_p90", "mis_dis_p90", "fouls_p90",
    "Per_90_Minutes_npxG"
  ]

  /** `build_player_season_clean(base, min_minutes)`. */
  function CleanSpec(base: Table, minMinutes: int): (r: Result<Table>)
    requires base.Shaped()
  {
    match Timed(base)
    case Err(e) => Err(e)
    case Ok(_) =>
      var f := Featured(base, minMinutes, Features);
      Ok(Select(f, KeepColumns(f.columns)))
  }

  /** The keep-list names the table has, without repeats. */
  function KeepColumns(columns: seq<string>): (r: seq<string>)
    ensures forall k :: 0 <= k < |r| ==> r[k] in columns
  {
    PresentDedup(KeepList, columns);
    Dedup(PresentColumns(KeepList, columns))
  }

  // ------------------------------------------------------------- properties

  /** The columns a feature reads. */
  function Reads(src: Source): seq<string> {
    match src
    case Raw(c) => [c]
    case Per90(c) => [c]
    case Per90Sum(a, b) => [a, b]
  }

  /** The columns the cleaning writes before the features. */
  const Written: seq<string> := ["Playing_Time_Min", "Playing_Time_90s", "minutes", "nineties", "pos", "position_bucket"]

  predicate NamesDistinct(feats: seq<(string, Source)>) {
    forall a, b :: 0 <= a < b < |feats| ==> feats[a].0 != feats[b].0
  }

  /** No feature reads a column that a feature writes. */
  predicate ReadsNotWritten(feats: seq<(string, Source)>) {
    forall a, b, c :: 0 <= a < |feats| && 0 <= b < |feats| && c in Reads(feats[b].1) ==> c != feats[a].0
  }

  /** No feature overwrites a column the earlier stages write. */
  predicate KeepsNineties(feats: seq<(string, Source)>) {
    forall a :: 0 <= a < |feats| ==> feats[a].0 !in Written
  }

  /** No feature reads a column the earlier stages write. */
  predicate ReadsInput(feats: seq<(string, Source)>) {
    forall b, c :: 0 <= b < |feats| && c in Reads(feats[b].1) ==> c !in Written
  }

  predicate FeaturesWellFormed(feats: seq<(string, Source)>) {
    NamesDistinct(feats) && ReadsNotWritten(feats) && KeepsNineties(feats) && ReadsInput(feats)
  }

  /** The names the features write, in order, in two groups. */
  const NamesA: seq<string> := [
    "pass_cmp_pct", "passes_att_p90", "prog_passes_p90", "passes_final_third_p90", "long_pass_cmp_pct",
    "key_passes_p90", "xa_p90", "crosses_pa_p90", "tkl_int_p90", "clr_p90"
  ]
  const NamesB: seq<string> := [
    "errors_p90", "aerial_win_pct", "prog_carries_p90", "carries_pa_p90", "succ_takeons_p90",
    "takeon_succ_pct", "sca_p90", "mis_dis_p90", "fouls_p90"
  ]
  const FeatureNames: seq<string> := NamesA + NamesB

  /** The input columns the features read, in five groups. */
  const ReadsA: seq<string> := ["passing__Total_Cmppct", "passing__Total_Att", "passing__PrgP", "passing__1/3"]
  const ReadsB: seq<string> := ["passing__Long_Cmppct", "passing__KP", "passing__Expected_xA", "passing__CrsPA"]
  const ReadsC: seq<string> := ["defense__Tkl+Int", "defense__Clr", "defense__Err", "misc__Aerial_Duels_Wonpct"]
  const ReadsD: seq<string> := [
    "possession__Carries_PrgC", "possession__Carries_CPA", "possession__Take-Ons_Succ", "possession__Take-Ons_Succpct"
  ]
  const ReadsE: seq<string> := [
    "goal_shot_creation__SCA_SCA90", "possession__Carries_Mis", "possession__Carries_Dis", "misc__Performance_Fls"
  ]
  const FeatureReads: seq<string> := ReadsA + ReadsB + ReadsC + ReadsD + ReadsE

  predicate Disjoint(xs: seq<string>, ys: seq<string>) {
    forall x :: x in xs ==> x !in ys
  }

  /** Every column some feature reads is listed in `listed`. */
  predicate ReadsListed(feats: seq<(string, Source)>, listed: seq<string>) {
    forall b, c :: 0 <= b < |feats| && c in Reads(feats[b].1) ==> c in listed
  }

  lemma DisjointConcat(xs: seq<string>, ys: seq<string>, zs: seq<string>)
    requires Disjoint(xs, zs) && Disjoint(ys, zs)
    ensures Disjoint(xs + ys, zs)
  {
  }

  lemma DistinctConcat(xs: seq<string>, ys: seq<string>)
    requires Distinct(xs) && Distinct(ys) && Disjoint(xs, ys)
    ensures Distinct(xs + ys)
  {
    var zs := xs + ys;
    forall i, j | 0 <= i < j < |zs|
      ensures zs[i] != zs[j]
    {
      if j >= |xs| && i < |xs| {
        assert zs[i] in xs && zs[j] == ys[j - |xs|];
      }
    }
  }

  lemma FeatureNamesAre()
    ensures Names(Features) == FeatureNames
  {
  }

  lemma FeatureReadsAre()
    ensures ReadsListed(Features, FeatureReads)
  {
  }

  lemma NamesDistinctA()
    ensures Distinct(NamesA)
  {
  }

  lemma NamesDistinctB()
    ensures Distinct(NamesB)
  {
  }

  lemma NamesDistinctAcrossFirst()
    ensures Disjoint(NamesA[..5], NamesB)
  {
  }

  lemma NamesDistinctAcrossLast()
    ensures Disjoint(NamesA[5..], NamesB)
  {
  }

  lemma FeatureNamesOk()
    ensures NamesDistinct(Features)
  {
    NamesDistinctA();
    NamesDistinctB();
    NamesDistinctAcrossFirst();
    NamesDistinctAcrossLast();
    DisjointConcat(NamesA[..5], NamesA[5..], NamesB);
    assert NamesA[..5] + NamesA[5..] == NamesA;
    DistinctConcat(NamesA, NamesB);
    FeatureNamesAre();
    var n := Names(Features);
    forall a, b | 0 <= a < b < |Features|
      ensures Features[a].0 != Features[b].0
    {
      assert Features[a].0 == n[a] && Features[b].0 == n[b];
    }
  }

  lemma ReadsNotNamesA()
    ensures Disjoint(ReadsA, FeatureNames)
  {
  }

  lemma ReadsNotNamesB()
    ensures Disjoint(ReadsB, FeatureNames)
  {
  }

  lemma ReadsNotNamesC()
    ensures Disjoint(ReadsC, FeatureNames)
  {
  }

  lemma ReadsNotNamesD()
    ensures Disjoint(ReadsD, FeatureNames)
  {
  }

  lemma ReadsNotNamesE()
    ensures Disjoint(ReadsE, FeatureNames)
  {
  }

  /** No listed read column is a feature name, so no feature reads one. */
  lemma ReadsNotWrittenBy(feats: seq<(string, Source)>, listed: seq<string>)
    requires ReadsListed(feats, listed) && Disjoint(listed, Names(feats))
    ensures ReadsNotWritten(feats)
  {
    forall a, b, c | 0 <= a < |feats| && 0 <= b < |feats| && c in Reads(feats[b].1)
      ensures c != feats[a].0
    {
      assert c in listed && Names(feats)[a] in Names(feats);
    }
  }

  lemma FeatureReadsOk()
    ensures ReadsNotWritten(Features)
  {
    ReadsNotNamesA();
    ReadsNotNamesB();
    ReadsNotNamesC();
    ReadsNotNamesD();
    ReadsNotNamesE();
    DisjointConcat(ReadsA, ReadsB, FeatureNames);
    DisjointConcat(ReadsA + ReadsB, ReadsC, FeatureNames);
    DisjointConcat(ReadsA + ReadsB + ReadsC, ReadsD, FeatureNames);
    DisjointConcat(ReadsA + ReadsB + ReadsC + ReadsD, ReadsE, FeatureNames);
    FeatureNamesAre();
    FeatureReadsAre();
    ReadsNotWrittenBy(Features, FeatureReads);
  }

  lemma NamesNotWrittenA()
    ensures Disjoint(NamesA, Written)
  {
  }

  lemma NamesNotWrittenB()
    ensures Disjoint(NamesB, Written)
  {
  }

  lemma KeepsNinetiesBy(feats: seq<(string, Source)>)
    requires Disjoint(Names(feats), Written)
    ensures KeepsNineties(feats)
  {
    forall a | 0 <= a < |feats|
      ensures feats[a].0 !in Written
    {
      assert feats[a].0 == Names(feats)[a];
    }
  }

  lemma FeatureNinetiesOk()
    ensures KeepsNineties(Features)
  {
    NamesNotWrittenA();
    NamesNotWrittenB();
    DisjointConcat(NamesA, NamesB, Written);
    FeatureNamesAre();
    KeepsNinetiesBy(Features);
  }

  lemma ReadsNotWrittenFirst()
    ensures Disjoint(ReadsA + ReadsB + ReadsC, Written)
  {
  }

  lemma ReadsNotWrittenLast()
    ensures Disjoint(ReadsD + ReadsE, Written)
  {
  }

  lemma ReadsInputBy(feats: seq<(string, Source)>, listed: seq<string>)
    requires ReadsListed(feats, listed) && Disjoint(listed, Written)
    ensures ReadsInput(feats)
  {
  }

  lemma FeatureInputsOk()
    ensures ReadsInput(Features)
  {
    ReadsNotWrittenFirst();
    ReadsNotWrittenLast();
    DisjointConcat(ReadsA + ReadsB + ReadsC, ReadsD + ReadsE, Written);
    assert FeatureReads == ReadsA + ReadsB + ReadsC + (ReadsD + ReadsE);
    FeatureReadsAre();
    ReadsInputBy(Features, FeatureReads);
  }

  lemma FeaturesOk()
    ensures FeaturesWellFormed(Features)
  {
    FeatureNamesOk();
    FeatureReadsOk();
    FeatureNinetiesOk();
    FeatureInputsOk();
  }

  /** `per90(c)` and the coerced columns, read from the input row. */
  function Per90Base(base: Table, j: int, c: string): Cell {
    if c !in base.columns then Null
    else Per90Cell(Numeric(Get(base, j, c)), Numeric(Get(base, j, "Playing_Time_90s")))
  }

  function FeatureValue(base: Table, j: int, src: Source): Cell {
    match src
    case Raw(c) => Numeric(Get(base, j, c))
    case Per90(c) => Per90Base(base, j, c)
    case Per90Sum(a, b) => SumCells(Per90Base(base, j, a), Per90Base(base, j, b))
  }

  lemma {:induction false} ToNumericFrame(t: Table, cols: seq<string>, i: int, c: string)
    requires t.Shaped() && 0 <= i < |t.rows|
    ensures Get(ToNumeric(t, cols), i, c) == if c in cols then Numeric(Get(t, i, c)) else Get(t, i, c)
    ensures c in ToNumeric(t, cols).columns <==> c in t.columns
    decreases |cols|
  {
    if cols != [] {
      var t1 := if cols[0] in t.columns then SetColumn(t, cols[0], NumericColumn(t, cols[0])) else t;
      ToNumericFrame(t1, cols[1..], i, c);
      assert c in cols <==> c == cols[0] || c in cols[1..];
    }
  }

  lemma {:induction false} AddFeaturesFrame(t: Table, feats: seq<(string, Source)>, i: int, d: string)
    requires t.Shaped() && 0 <= i < |t.rows|
    requires forall a :: 0 <= a < |feats| ==> feats[a].0 != d
    ensures Get(AddFeatures(t, feats), i, d) == Get(t, i, d)
    ensures d in AddFeatures(t, feats).columns <==> d in t.columns
    decreases |feats|
  {
    if feats != [] {
      AddFeaturesFrame(SetColumn(t, feats[0].0, FeatureColumn(t, feats[0].1)), feats[1..], i, d);
    }
  }

  /** A feature's value does not depend on columns it does not read, nor on `nineties`' neighbours. */
  lemma FeatureCellFrame(t: Table, u: Table, i: int, src: Source)
    requires forall c :: c in Reads(src) ==> Get(u, i, c) == Get(t, i, c) && (c in u.columns <==> c in t.columns)
    requires Get(u, i, "nineties") == Get(t, i, "nineties")
    ensures FeatureCell(u, i, src) == FeatureCell(t, i, src)
  {
  }

  /** Each feature column holds its value computed from the table before any feature was added. */
  lemma {:induction false} AddFeaturesValue(t: Table, feats: seq<(string, Source)>, i: int, a: nat)
    requires t.Shaped() && 0 <= i < |t.rows| && a < |feats|
    requires FeaturesWellFormed(feats)
    ensures Get(AddFeatures(t, feats), i, feats[a].0) == FeatureCell(t, i, feats[a].1)
    decreases |feats|
  {
    var t1 := SetColumn(t, feats[0].0, FeatureColumn(t, feats[0].1));
    if a == 0 {
      AddFeaturesFrame(t1, feats[1..], i, feats[0].0);
    } else {
      WellFormedRest(feats);
      AddFeaturesValue(t1, feats[1..], i, a - 1);
      assert feats[1..][a - 1] == feats[a];
      WellFormedFirst(feats, a);
      SetColumnFeatureCell(t, feats[0].0, FeatureColumn(t, feats[0].1), i, feats[a].1);
    }
  }

  /** The first feature writes neither a column another feature reads nor `nineties`. */
  lemma WellFormedFirst(feats: seq<(string, Source)>, a: nat)
    requires a < |feats| && FeaturesWellFormed(feats)
    ensures forall c :: c in Reads(feats[a].1) ==> c != feats[0].0
    ensures feats[0].0 != "nineties"
  {
    WrittenFour("nineties");
  }

  /** Writing a column that a feature does not read leaves the feature's cell as it was. */
  lemma SetColumnFeatureCell(t: Table, name: string, cells: seq<Cell>, i: int, src: Source)
    requires t.Shaped() && |cells| == |t.rows| && 0 <= i < |t.rows|
    requires forall c :: c in Reads(src) ==> c != name
    requires name != "nineties"
    ensures FeatureCell(SetColumn(t, name, cells), i, src) == FeatureCell(t, i, src)
  {
    FeatureCellFrame(t, SetColumn(t, name, cells), i, src);
  }

  lemma WellFormedRest(feats: seq<(string, Source)>)
    requires feats != [] && FeaturesWellFormed(feats)
    ensures FeaturesWellFormed(feats[1..])
  {
    assert NamesDistinct(feats[1..]) && KeepsNineties(feats[1..]) && ReadsInput(feats[1..]);
    assert ReadsNotWritten(feats[1..]) by {
      forall x, y, c | 0 <= x < |feats[1..]| && 0 <= y < |feats[1..]| && c in Reads(feats[1..][y].1)
        ensures c != feats[1..][x].0
      {
        assert feats[1..][y] == feats[y + 1] && feats[1..][x] == feats[x + 1];
      }
    }
  }

  /** The table with time columns and buckets, the row filters' input. */
  function Prepared(base: Table): (r: Table)
    requires base.Shaped() && Timed(base).Ok?
    ensures r.Shaped() && |r.rows| == |base.rows|
  {
    Bucketed(Timed(base).value)
  }

  /** A prepared cell, read from the input row: what the stages before the features write. */
  function Prepped(base: Table, j: int, c: string): Cell {
    if c == "Playing_Time_Min" || c == "Playing_Time_90s" then Numeric(Get(base, j, c))
    else if c == "minutes" then Numeric(Get(base, j, "Playing_Time_Min"))
    else if c == "nineties" then Numeric(Get(base, j, "Playing_Time_90s"))
    else if c == "position_bucket" then Str(SimpleBucket(Get(base, j, "pos")))
    else Get(base, j, c)
  }

  /** The three prepared cells the filters and features read. */
  lemma PreppedTime(base: Table, j: int)
    ensures Prepped(base, j, "minutes") == Numeric(Get(base, j, "Playing_Time_Min"))
    ensures Prepped(base, j, "nineties") == Numeric(Get(base, j, "Playing_Time_90s"))
    ensures Prepped(base, j, "position_bucket") == Str(SimpleBucket(Get(base, j, "pos")))
  {
  }

  /** `minutes` and `nineties` copy the coerced playing-time columns; other columns are as given. */
  lemma TimedRow(base: Table, j: int, c: string)
    requires base.Shaped() && Timed(base).Ok? && 0 <= j < |base.rows|
    requires c != "position_bucket"
    ensures Get(Timed(base).value, j, c) == Prepped(base, j, c)
  {
    var cols := ["Playing_Time_Min", "Playing_Time_90s"];
    var t := ToNumeric(base, cols);
    var t1 := SetColumn(t, "minutes", ColumnCells(t, "Playing_Time_Min"));
    var t2 := SetColumn(t1, "nineties", ColumnCells(t1, "Playing_Time_90s"));
    assert Timed(base).value == t2;
    TimeColumns(c);
    if c == "nineties" {
      ToNumericFrame(base, cols, j, "Playing_Time_90s");
      assert Get(t2, j, c) == Get(t, j, "Playing_Time_90s");
    } else if c == "minutes" {
      ToNumericFrame(base, cols, j, "Playing_Time_Min");
      assert Get(t2, j, c) == Get(t, j, "Playing_Time_Min");
    } else {
      ToNumericFrame(base, cols, j, c);
      assert Get(t2, j, c) == Get(t, j, c);
    }
  }

  lemma TimeColumns(c: string)
    ensures c in ["Playing_Time_Min", "Playing_Time_90s"] <==> c == "Playing_Time_Min" || c == "Playing_Time_90s"
    ensures "Playing_Time_90s" != "nineties" && "Playing_Time_Min" != "minutes" && "minutes" != "nineties"
  {
  }

  /** The timed table has the input's columns, and `minutes` and `nineties`. */
  lemma TimedColumns(base: Table)
    requires base.Shaped() && Timed(base).Ok?
    ensures forall c :: c in Timed(base).value.columns <==> c in base.columns || c == "minutes" || c == "nineties"
  {
    ToNumericColumns(base, ["Playing_Time_Min", "Playing_Time_90s"]);
  }

  /** Before filtering, every cell is its prepared value. */
  lemma PreparedRow(base: Table, j: int, c: string)
    requires base.Shaped() && Timed(base).Ok? && 0 <= j < |base.rows|
    ensures Get(Prepared(base), j, c) == Prepped(base, j, c)
  {
    var t := Timed(base).value;
    var t1 := if "pos" in t.columns then t else SetColumn(t, "pos", Constant(|t.rows|, Null));
    var p := SetColumn(t1, "position_bucket", BucketColumn(t1));
    assert Prepared(base) == p;
    TimedRow(base, j, "pos");
    PreppedPos(base, j);
    if c == "position_bucket" {
      assert Get(p, j, c) == Str(SimpleBucket(Get(t1, j, "pos")));
    } else if c == "pos" {
      assert Get(p, j, c) == Get(t1, j, "pos");
    } else {
      TimedRow(base, j, c);
      assert Get(p, j, c) == Get(t, j, c);
    }
  }

  lemma PreppedPos(base: Table, j: int)
    ensures Prepped(base, j, "pos") == Get(base, j, "pos")
    ensures Prepped(base, j, "position_bucket") == Str(SimpleBucket(Get(base, j, "pos")))
  {
  }

  /** The prepared table has the input's columns and the four written by the stages. */
  lemma PreparedColumns(base: Table)
    requires base.Shaped() && Timed(base).Ok?
    ensures forall c :: c in Prepared(base).columns <==>
              c in base.columns || c in ["minutes", "nineties", "pos", "position_bucket"]
  {
    TimedColumns(base);
  }

  lemma {:induction false} ToNumericColumns(t: Table, cols: seq<string>)
    requires t.Shaped()
    ensures ToNumeric(t, cols).columns == t.columns
    decreases |cols|
  {
    if cols != [] {
      var t1 := if cols[0] in t.columns then SetColumn(t, cols[0], NumericColumn(t, cols[0])) else t;
      ToNumericColumns(t1, cols[1..]);
    }
  }

  lemma TimedOutcome(base: Table)
    requires base.Shaped()
    ensures Timed(base).Err? <==> "Playing_Time_Min" !in base.columns || "Playing_Time_90s" !in base.columns
    ensures Timed(base).Err? ==>
              Timed(base).error == MissingColumn(if "Playing_Time_Min" !in base.columns then "Playing_Time_Min" else "Playing_Time_90s")
  {
    ToNumericColumns(base, ["Playing_Time_Min", "Playing_Time_90s"]);
  }

  /** The cleaning fails exactly when a playing-time column is missing, and names the first one missing. */
  lemma CleanOutcome(base: Table, minMinutes: int)
    requires base.Shaped()
    ensures CleanSpec(base, minMinutes).Err? <==>
              "Playing_Time_Min" !in base.columns || "Playing_Time_90s" !in base.columns
    ensures "Playing_Time_Min" !in base.columns ==>
              CleanSpec(base, minMinutes) == Err(MissingColumn("Playing_Time_Min"))
    ensures "Playing_Time_Min" in base.columns && "Playing_Time_90s" !in base.columns ==>
              CleanSpec(base, minMinutes) == Err(MissingColumn("Playing_Time_90s"))
  {
    TimedOutcome(base);
  }

  /** The rows the filters keep: not a goalkeeper, and at least `minMinutes` minutes. */
  predicate Passes(base: Table, j: int, minMinutes: int) {
    && SimpleBucket(Get(base, j, "pos")) != "GK"
    && AtLeast(Numeric(Get(base, j, "Playing_Time_Min")), minMinutes as real)
  }

  /** The input row behind each output row. */
  function Survivors(base: Table, minMinutes: int): (r: seq<nat>)
    requires base.Shaped() && Timed(base).Ok?
    ensures |r| == |Eligible(Prepared(base), minMinutes).rows|
  {
    Filtered(Prepared(base), minMinutes)
  }

  /** The rows of `t` that pass both filters, in order. */
  function Filtered(t: Table, minMinutes: int): (r: seq<nat>)
    requires t.Shaped()
    ensures |r| == |Eligible(t, minMinutes).rows|
  {
    var m1 := NotGoalkeeper(t);
    var idx1 := Kept(m1);
    var idx2 := Kept(EnoughMinutes(Where(t, m1), minMinutes));
    seq(|idx2|, k requires 0 <= k < |idx2| => idx1[idx2[k]])
  }

  /** Each kept row is the input row `Survivors(base, minMinutes)[k]`, with the prepared columns. */
  lemma EligibleRow(base: Table, minMinutes: int, k: int, c: string)
    requires base.Shaped() && Timed(base).Ok?
    requires 0 <= k < |Survivors(base, minMinutes)|
    ensures Get(Eligible(Prepared(base), minMinutes), k, c) == Get(Prepared(base), Survivors(base, minMinutes)[k], c)
  {
    var t := Prepared(base);
    var m1 := NotGoalkeeper(t);
    var t1 := Where(t, m1);
    var m2 := EnoughMinutes(t1, minMinutes);
    WhereGet(t1, m2, k, c);
    WhereGet(t, m1, Kept(m2)[k], c);
  }

  /** The filter conditions, read on the prepared table. */
  lemma PassesPrepared(base: Table, j: int, minMinutes: int)
    requires base.Shaped() && Timed(base).Ok? && 0 <= j < |base.rows|
    ensures Passes(base, j, minMinutes) <==>
              && Get(Prepared(base), j, "position_bucket") != Str("GK")
              && AtLeast(Get(Prepared(base), j, "minutes"), minMinutes as real)
  {
    var p := Prepared(base);
    PreparedRow(base, j, "minutes");
    PreparedRow(base, j, "position_bucket");
    PreppedTime(base, j);
  }

  /** Every surviving row passes both filters. */
  lemma SurvivorsSound(base: Table, minMinutes: int, k: int)
    requires base.Shaped() && Timed(base).Ok?
    requires 0 <= k < |Survivors(base, minMinutes)|
    ensures var j := Survivors(base, minMinutes)[k];
      0 <= j < |base.rows| && Passes(base, j, minMinutes)
  {
    var t := Prepared(base);
    var m1 := NotGoalkeeper(t);
    var m2 := EnoughMinutes(Where(t, m1), minMinutes);
    WhereGet(t, m1, Kept(m2)[k], "minutes");
    PassesPrepared(base, Survivors(base, minMinutes)[k], minMinutes);
  }

  /** Every row passing both filters survives. */
  lemma SurvivorsComplete(base: Table, minMinutes: int, j: int)
    requires base.Shaped() && Timed(base).Ok?
    requires 0 <= j < |base.rows| && Passes(base, j, minMinutes)
    ensures j in Survivors(base, minMinutes)
  {
    PassesPrepared(base, j, minMinutes);
    FilteredHas(Prepared(base), minMinutes, j);
  }

  /** A row of any table that is not a goalkeeper and has enough minutes passes both filters. */
  lemma FilteredHas(t: Table, minMinutes: int, j: int)
    requires t.Shaped() && 0 <= j < |t.rows|
    requires Get(t, j, "position_bucket") != Str("GK") && AtLeast(Get(t, j, "minutes"), minMinutes as real)
    ensures j in Filtered(t, minMinutes)
  {
    var m1 := NotGoalkeeper(t);
    var m2 := EnoughMinutes(Where(t, m1), minMinutes);
    assert m1[j];
    forall p | 0 <= p < |Kept(m1)| && Kept(m1)[p] == j
      ensures m2[p]
    {
      WhereGet(t, m1, p, "minutes");
    }
    KeptTwice(m1, m2, j);
    var q :| 0 <= q < |Kept(m2)| && Kept(m1)[Kept(m2)[q]] == j;
    assert Filtered(t, minMinutes)[q] == j;
  }

  /** An index kept by a first mask, whose place passes a second mask, is kept by both. */
  lemma KeptTwice(m1: seq<bool>, m2: seq<bool>, j: int)
    requires |m2| == |Kept(m1)| && 0 <= j < |m1| && m1[j]
    requires forall p :: 0 <= p < |m2| && Kept(m1)[p] == j ==> m2[p]
    ensures exists q :: 0 <= q < |Kept(m2)| && Kept(m1)[Kept(m2)[q]] == j
  {
    var p :| 0 <= p < |Kept(m1)| && Kept(m1)[p] == j;
    var q :| 0 <= q < |Kept(m2)| && Kept(m2)[q] == p;
  }

  /**
   * The surviving rows, in input order, are exactly the input rows that are
   * not goalkeepers and have at least `minMinutes` minutes; a null is never enough.
   */
  lemma SurvivorsSpec(base: Table, minMinutes: int)
    requires base.Shaped() && Timed(base).Ok?
    ensures var s := Survivors(base, minMinutes);
      && (forall k :: 0 <= k < |s| ==> s[k] < |base.rows|)
      && (forall k, l :: 0 <= k < l < |s| ==> s[k] < s[l])
      && (forall j :: 0 <= j < |base.rows| ==> (j in s <==> Passes(base, j, minMinutes)))
  {
    var s := Survivors(base, minMinutes);
    forall k | 0 <= k < |s|
      ensures s[k] < |base.rows| && Passes(base, s[k], minMinutes)
    {
      SurvivorsSound(base, minMinutes, k);
    }
    forall j | 0 <= j < |base.rows| && Passes(base, j, minMinutes)
      ensures j in s
    {
      SurvivorsComplete(base, minMinutes, j);
    }
  }

  function Name(f: (string, Source)): string { f.0 }

  /** An output cell, read from the input row: a feature's value, or the prepared cell. */
  function Expected(feats: seq<(string, Source)>, base: Table, j: int, c: string): Cell {
    var a := FirstIndex(feats, Name, c);
    if a < |feats| then FeatureValue(base, j, feats[a].1) else Prepped(base, j, c)
  }

  /** The filtered table with the features added, before the keep-list. */
  function Featured(base: Table, minMinutes: int, feats: seq<(string, Source)>): (r: Table)
    requires base.Shaped() && Timed(base).Ok?
    ensures r.Shaped() && |r.rows| == |Survivors(base, minMinutes)|
  {
    AddFeatures(Eligible(Prepared(base), minMinutes), feats)
  }

  /** A feature computed on a row equals its value read from the matching input row. */
  lemma FeatureCellValue(e: Table, k: int, base: Table, j: int, src: Source)
    requires forall c :: c in Reads(src) ==> Get(e, k, c) == Get(base, j, c) && (c in e.columns <==> c in base.columns)
    requires Get(e, k, "nineties") == Numeric(Get(base, j, "Playing_Time_90s"))
    ensures FeatureCell(e, k, src) == FeatureValue(base, j, src)
  {
  }

  /** A kept row's cells are the prepared values of the input row behind it. */
  lemma EligibleCell(base: Table, minMinutes: int, k: int, c: string)
    requires base.Shaped() && Timed(base).Ok?
    requires 0 <= k < |Survivors(base, minMinutes)|
    ensures Get(Eligible(Prepared(base), minMinutes), k, c) == Prepped(base, Survivors(base, minMinutes)[k], c)
  {
    SurvivorsSound(base, minMinutes, k);
    EligibleRow(base, minMinutes, k, c);
    PreparedRow(base, Survivors(base, minMinutes)[k], c);
  }

  /** The filtered table has the prepared table's columns. */
  lemma EligibleColumns(base: Table, minMinutes: int, c: string)
    requires base.Shaped() && Timed(base).Ok?
    requires c !in Written
    ensures c in Eligible(Prepared(base), minMinutes).columns <==> c in base.columns
  {
    PreparedColumns(base);
  }

  /** A feature computed on a row whose read columns hold the prepared values of an input row. */
  lemma FeatureFromBase(e: Table, k: int, base: Table, j: int, src: Source)
    requires forall c :: c in Reads(src) ==> c !in Written
    requires forall c :: c in Reads(src) ==> Get(e, k, c) == Prepped(base, j, c) && (c in e.columns <==> c in base.columns)
    requires Get(e, k, "nineties") == Prepped(base, j, "nineties")
    ensures FeatureCell(e, k, src) == FeatureValue(base, j, src)
  {
    forall c | c in Reads(src)
      ensures Get(e, k, c) == Get(base, j, c)
    {
      assert c !in Written;
    }
    FeatureCellValue(e, k, base, j, src);
  }

  /** Feature `a` of output row `k` is computed from the input row behind it. */
  lemma FeaturedFeature(base: Table, minMinutes: int, feats: seq<(string, Source)>, k: int, a: nat)
    requires base.Shaped() && Timed(base).Ok? && FeaturesWellFormed(feats)
    requires 0 <= k < |Survivors(base, minMinutes)| && a < |feats|
    ensures Get(Featured(base, minMinutes, feats), k, feats[a].0) ==
              FeatureValue(base, Survivors(base, minMinutes)[k], feats[a].1)
  {
    var e := Eligible(Prepared(base), minMinutes);
    var j := Survivors(base, minMinutes)[k];
    var src := feats[a].1;
    AddFeaturesValue(e, feats, k, a);
    forall c | c in Reads(src)
      ensures Get(e, k, c) == Prepped(base, j, c) && (c in e.columns <==> c in base.columns)
    {
      EligibleCell(base, minMinutes, k, c);
      EligibleColumns(base, minMinutes, c);
    }
    EligibleCell(base, minMinutes, k, "nineties");
    FeatureFromBase(e, k, base, j, src);
  }

  /** Every cell of the featured table is its expected value from the input row behind it. */
  lemma FeaturedCell(base: Table, minMinutes: int, feats: seq<(string, Source)>, k: int, c: string)
    requires base.Shaped() && Timed(base).Ok? && FeaturesWellFormed(feats)
    requires 0 <= k < |Survivors(base, minMinutes)|
    ensures Get(Featured(base, minMinutes, feats), k, c) == Expected(feats, base, Survivors(base, minMinutes)[k], c)
  {
    var a := FirstIndex(feats, Name, c);
    if a < |feats| {
      FeaturedFeature(base, minMinutes, feats, k, a);
    } else {
      var e := Eligible(Prepared(base), minMinutes);
      SurvivorsSound(base, minMinutes, k);
      AddFeaturesFrame(e, feats, k, c);
      EligibleRow(base, minMinutes, k, c);
      PreparedRow(base, Survivors(base, minMinutes)[k], c);
    }
  }

  /** The feature names, in order. */
  function Names(feats: seq<(string, Source)>): (r: seq<string>)
    ensures |r| == |feats| && forall a :: 0 <= a < |feats| ==> r[a] == feats[a].0
  {
    seq(|feats|, a requires 0 <= a < |feats| => feats[a].0)
  }

  lemma {:induction false} AddFeaturesColumns(t: Table, feats: seq<(string, Source)>)
    requires t.Shaped()
    ensures forall c :: c in AddFeatures(t, feats).columns <==> c in t.columns || c in Names(feats)
    decreases |feats|
  {
    if feats != [] {
      var t1 := SetColumn(t, feats[0].0, FeatureColumn(t, feats[0].1));
      AddFeaturesColumns(t1, feats[1..]);
      assert Names(feats) == [feats[0].0] + Names(feats[1..]);
    }
  }

  /** The columns every successful cleaning writes. */
  function Added(feats: seq<(string, Source)>): seq<string> {
    ["minutes", "nineties", "pos", "position_bucket"] + Names(feats)
  }

  lemma FeaturedColumns(base: Table, minMinutes: int, feats: seq<(string, Source)>)
    requires base.Shaped() && Timed(base).Ok?
    ensures forall c :: c in Featured(base, minMinutes, feats).columns <==> c in base.columns || c in Added(feats)
  {
    PreparedColumns(base);
    AddFeaturesColumns(Eligible(Prepared(base), minMinutes), feats);
  }

  /**
   * The output columns: no repeats, exactly the keep-list names the input
   * has or the cleaning writes, in keep-list order.
   */
  lemma CleanColumns(base: Table, minMinutes: int)
    requires base.Shaped() && CleanSpec(base, minMinutes).Ok?
    ensures var cols := CleanSpec(base, minMinutes).value.columns;
      && Distinct(cols)
      && (forall c :: c in cols <==> c in KeepList && (c in base.columns || c in Added(Features)))
      && (forall i, j :: 0 <= i < j < |cols| ==> FirstIndex(KeepList, Id, cols[i]) < FirstIndex(KeepList, Id, cols[j]))
  {
    var f := Featured(base, minMinutes, Features);
    PresentDedup(KeepList, f.columns);
    FeaturedColumns(base, minMinutes, Features);
  }

  /**
   * The output rows: one per surviving input row, in input order, each
   * output cell the value expected from that input row.
   */
  lemma CleanRows(base: Table, minMinutes: int)
    requires base.Shaped() && CleanSpec(base, minMinutes).Ok?
    ensures Timed(base).Ok?
    ensures var r := CleanSpec(base, minMinutes).value;
      var s := Survivors(base, minMinutes);
      && |r.rows| == |s|
      && forall k, c :: 0 <= k < |s| && c in r.columns ==> Get(r, k, c) == Expected(Features, base, s[k], c)
  {
    var f := Featured(base, minMinutes, Features);
    var keep := KeepColumns(f.columns);
    FeaturesOk();
    forall k, c | 0 <= k < |Survivors(base, minMinutes)| && c in keep
      ensures Get(Select(f, keep), k, c) == Expected(Features, base, Survivors(base, minMinutes)[k], c)
    {
      SelectGet(f, keep, k, c);
      FeaturedCell(base, minMinutes, Features, k, c);
    }
  }

  lemma WrittenFour(c: string)
    requires c in ["minutes", "nineties", "pos", "position_bucket"]
    ensures c in Written
  {
  }

  /** Expected cells of the columns the stages write are their prepared values. */
  lemma ExpectedWritten(base: Table, j: int, c: string)
    requires c in Written
    ensures Expected(Features, base, j, c) == Prepped(base, j, c)
  {
    FeatureNinetiesOk();
    assert FirstIndex(Features, Name, c) == |Features|;
  }

  /** The output always has the four columns the stages write. */
  lemma CleanHasWritten(base: Table, minMinutes: int, c: string)
    requires base.Shaped() && CleanSpec(base, minMinutes).Ok?
    requires c in ["minutes", "nineties", "pos", "position_bucket"]
    ensures c in CleanSpec(base, minMinutes).value.columns
  {
    CleanColumns(base, minMinutes);
    assert c in Added(Features);
  }

  /** One output cell. */
  lemma CleanCell(base: Table, minMinutes: int, k: int, c: string)
    requires base.Shaped() && CleanSpec(base, minMinutes).Ok?
    requires 0 <= k < |CleanSpec(base, minMinutes).value.rows|
    requires c in CleanSpec(base, minMinutes).value.columns
    ensures Timed(base).Ok? && k < |Survivors(base, minMinutes)|
    ensures Get(CleanSpec(base, minMinutes).value, k, c) == Expected(Features, base, Survivors(base, minMinutes)[k], c)
  {
    CleanRows(base, minMinutes);
  }

  /** An output cell of a column the stages write is its prepared value. */
  lemma CleanWrittenCell(base: Table, minMinutes: int, k: int, c: string)
    requires base.Shaped() && CleanSpec(base, minMinutes).Ok?
    requires 0 <= k < |CleanSpec(base, minMinutes).value.rows|
    requires c in ["minutes", "nineties", "pos", "position_bucket"]
    ensures c in CleanSpec(base, minMinutes).value.columns
    ensures Timed(base).Ok? && k < |Survivors(base, minMinutes)|
    ensures Get(CleanSpec(base, minMinutes).value, k, c) == Prepped(base, Survivors(base, minMinutes)[k], c)
  {
    CleanHasWritten(base, minMinutes, c);
    CleanCell(base, minMinutes, k, c);
    WrittenFour(c);
    ExpectedWritten(base, Survivors(base, minMinutes)[k], c);
  }

  /** No output row is a goalkeeper. */
  lemma CleanNoGoalkeeper(base: Table, minMinutes: int, k: int)
    requires base.Shaped() && CleanSpec(base, minMinutes).Ok?
    requires 0 <= k < |CleanSpec(base, minMinutes).value.rows|
    ensures "position_bucket" in CleanSpec(base, minMinutes).value.columns
    ensures Get(CleanSpec(base, minMinutes).value, k, "position_bucket") != Str("GK")
  {
    CleanWrittenCell(base, minMinutes, k, "position_bucket");
    SurvivorsSound(base, minMinutes, k);
    PreppedTime(base, Survivors(base, minMinutes)[k]);
  }

  /** Every output row has at least `minMinutes` minutes; a null never does. */
  lemma CleanMinutes(base: Table, minMinutes: int, k: int)
    requires base.Shaped() && CleanSpec(base, minMinutes).Ok?
    requires 0 <= k < |CleanSpec(base, minMinutes).value.rows|
    ensures "minutes" in CleanSpec(base, minMinutes).value.columns
    ensures AtLeast(Get(CleanSpec(base, minMinutes).value, k, "minutes"), minMinutes as real)
  {
    CleanWrittenCell(base, minMinutes, k, "minutes");
    SurvivorsSound(base, minMinutes, k);
    PreppedTime(base, Survivors(base, minMinutes)[k]);
  }

  /** Every feature is on the keep-list. */
  lemma FeaturesKept()
    ensures forall a :: 0 <= a < |Features| ==> Features[a].0 in KeepList
  {
  }

  /** The first feature of a name is the only one. */
  lemma FeatureIndex(a: nat)
    requires a < |Features|
    ensures FirstIndex(Features, Name, Features[a].0) == a
  {
    FeatureNamesOk();
    var f := FirstIndex(Features, Name, Features[a].0);
    assert f <= a;
  }

  /** Every feature is an output column, whose cells are computed from the input rows behind them. */
  lemma CleanFeature(base: Table, minMinutes: int, k: int, a: nat)
    requires base.Shaped() && CleanSpec(base, minMinutes).Ok?
    requires 0 <= k < |CleanSpec(base, minMinutes).value.rows| && a < |Features|
    ensures Features[a].0 in CleanSpec(base, minMinutes).value.columns
    ensures Timed(base).Ok? && k < |Survivors(base, minMinutes)|
    ensures Get(CleanSpec(base, minMinutes).value, k, Features[a].0) ==
              FeatureValue(base, Survivors(base, minMinutes)[k], Features[a].1)
  {
    CleanColumns(base, minMinutes);
    FeaturesKept();
    assert Names(Features)[a] == Features[a].0;
    assert Features[a].0 in Added(Features);
    CleanCell(base, minMinutes, k, Features[a].0);
    FeatureIndex(a);
  }

  lemma MisDisFeature()
    ensures |Features| > 17
    ensures Features[17] == ("mis_dis_p90", Per90Sum("possession__Carries_Mis", "possession__Carries_Dis"))
  {
  }

  /** `mis_dis_p90` is the sum of the two per-90 rates, null when either is. */
  lemma CleanMisDis(base: Table, minMinutes: int, k: int)
    requires base.Shaped() && CleanSpec(base, minMinutes).Ok?
    requires 0 <= k < |CleanSpec(base, minMinutes).value.rows|
    ensures Timed(base).Ok? && k < |Survivors(base, minMinutes)|
    ensures var r := CleanSpec(base, minMinutes).value;
      var j := Survivors(base, minMinutes)[k];
      && "mis_dis_p90" in r.columns
      && Get(r, k, "mis_dis_p90") ==
           SumCells(Per90Base(base, j, "possession__Carries_Mis"), Per90Base(base, j, "possession__Carries_Dis"))
  {
    MisDisFeature();
    var mis, dis := "possession__Carries_Mis", "possession__Carries_Dis";
    CleanFeatureNamed(base, minMinutes, k, 17, "mis_dis_p90", Per90Sum(mis, dis));
    SumFeature(base, Survivors(base, minMinutes)[k], mis, dis);
  }

  lemma SumFeature(base: Table, j: int, a: string, b: string)
    ensures FeatureValue(base, j, Per90Sum(a, b)) == SumCells(Per90Base(base, j, a), Per90Base(base, j, b))
  {
  }

  lemma CleanFeatureNamed(base: Table, minMinutes: int, k: int, a: nat, name: string, src: Source)
    requires base.Shaped() && CleanSpec(base, minMinutes).Ok?
    requires 0 <= k < |CleanSpec(base, minMinutes).value.rows|
    requires a < |Features| && Features[a] == (name, src)
    ensures Timed(base).Ok? && k < |Survivors(base, minMinutes)|
    ensures name in CleanSpec(base, minMinutes).value.columns
    ensures Get(CleanSpec(base, minMinutes).value, k, name) ==
              FeatureValue(base, Survivors(base, minMinutes)[k], src)
  {
    CleanFeature(base, minMinutes, k, a);
  }

  // ---------------------------------------------------------------- methods

  /** `_to_numeric`: coerce each listed column the table has, one at a time. */
  method CoerceNumeric(t: Table, cols: seq<string>) returns (out: Table)
    requires t.Shaped()
    ensures out == ToNumeric(t, cols)
  {
    out := t;
    var i := 0;
    while i < |cols|
      invariant 0 <= i <= |cols|
      invariant out.Shaped() && |out.rows| == |t.rows|
      invariant ToNumeric(out, cols[i..]) == ToNumeric(t, cols)
    {
      assert cols[i..][0] == cols[i] && cols[i..][1..] == cols[i + 1..];
      if cols[i] in out.columns {
        out := SetColumn(out, cols[i], NumericColumn(out, cols[i]));
      }
      i := i + 1;
    }
  }

  /** The time fields: numeric playing time, copied to `minutes` and `nineties`. */
  method TimeFields(base: Table) returns (r: Result<Table>)
    requires base.Shaped()
    ensures r == Timed(base)
  {
    var df := CoerceNumeric(base, ["Playing_Time_Min", "Playing_Time_90s"]);
    if "Playing_Time_Min" !in df.columns {
      return Err(MissingColumn("Playing_Time_Min"));
    }
    df := SetColumn(df, "minutes", ColumnCells(df, "Playing_Time_Min"));
    if "Playing_Time_90s" !in df.columns {
      return Err(MissingColumn("Playing_Time_90s"));
    }
    df := SetColumn(df, "nineties", ColumnCells(df, "Playing_Time_90s"));
    r := Ok(df);
  }

  /** A null `pos` column when there is none, then the bucket of each row. */
  method Buckets(t: Table) returns (df: Table)
    requires t.Shaped()
    ensures df == Bucketed(t)
  {
    df := t;
    if "pos" !in df.columns {
      df := SetColumn(df, "pos", Constant(|df.rows|, Null));
    }
    df := SetColumn(df, "position_bucket", BucketColumn(df));
  }

  /** `build_player_season_clean`, step by step as the source reassigns the frame. */
  method BuildClean(base: Table, minMinutes: int) returns (r: Result<Table>)
    requires base.Shaped()
    ensures r == CleanSpec(base, minMinutes)
  {
    var timed := TimeFields(base);
    if timed.Err? {
      return Err(timed.error);
    }
    var df := Buckets(timed.value);
    assert df == Prepared(base);
    df := Where(df, NotGoalkeeper(df));
    df := Where(df, EnoughMinutes(df, minMinutes));
    assert df == Eligible(Prepared(base), minMinutes);
    df := AddFeatures(df, Features);
    assert df == Featured(base, minMinutes, Features);
    var keep := PresentColumns(KeepList, df.columns);
    keep := UniquePreserveOrder(keep);
    assert keep == KeepColumns(df.columns);
    r := Ok(Select(df, keep));
  }
}
