/**
 * The fact tables of the mart layer: the player-season fact at the grain of
 * one row per `player_team_season_id`, and the long role profile card that
 * pairs every scored (player, role) with the long percentile rows.
 */
module BuildFacts {
  import opened Seqs
  import opened Text
  import opened Tables
  import opened Merge

  // -------------------------------------------------- column de-duplication

  /** `~df.columns.duplicated()`: true where a name occurs for the first time. */
  function FirstMask(cols: seq<string>): (m: seq<bool>)
    ensures |m| == |cols|
    ensures forall x :: 0 <= x < |cols| ==> (m[x] <==> IndexOf(cols, cols[x]) == x)
  {
    seq(|cols|, x requires 0 <= x < |cols| => IndexOf(cols, cols[x]) == x)
  }

  /** Positions holding the first occurrence of their column name. */
  function FirstPositions(cols: seq<string>): (p: seq<nat>)
    ensures forall q :: 0 <= q < |p| ==> p[q] < |cols| && IndexOf(cols, cols[p[q]]) == p[q]
    ensures forall x :: 0 <= x < |cols| && IndexOf(cols, cols[x]) == x ==> x in p
    ensures forall a, b :: 0 <= a < b < |p| ==> p[a] < p[b]
  {
    Kept(FirstMask(cols))
  }

  /**
   * `_dedupe_columns`: `df.loc[:, ~df.columns.duplicated()]`, keeping the
   * first column of every name. The source only filters when some name is
   * duplicated; `DedupeColumnsNoop` shows the filter is the identity otherwise.
   */
  function DedupeColumns(t: Table): Table {
    var keep := FirstPositions(t.columns);
    Table(seq(|keep|, q requires 0 <= q < |keep| => t.columns[keep[q]]),
      seq(|t.rows|, i requires 0 <= i < |t.rows| =>
        seq(|keep|, q requires 0 <= q < |keep| => At(t.rows[i], keep[q]))))
  }

  /** Every name keeps its first column, at the position of that column among the kept ones. */
  lemma DedupePosition(t: Table, c: string)
    requires c in t.columns
    ensures var r := DedupeColumns(t);
      && c in r.columns
      && IndexOf(r.columns, c) < |FirstPositions(t.columns)|
      && FirstPositions(t.columns)[IndexOf(r.columns, c)] == IndexOf(t.columns, c)
  {
    var r := DedupeColumns(t);
    var keep := FirstPositions(t.columns);
    var x := IndexOf(t.columns, c);
    var q :| 0 <= q < |keep| && keep[q] == x;
    assert r.columns[q] == c;
    var q0 := IndexOf(r.columns, c);
    assert q0 <= q;
    assert IndexOf(t.columns, t.columns[keep[q0]]) == keep[q0];
    assert q0 == q;
  }

  /**
   * After de-duplication every name occurs once, the names are exactly the
   * input's, in the order of their first occurrence.
   */
  lemma DedupeColumnsNames(t: Table)
    ensures var r := DedupeColumns(t);
      && Distinct(r.columns)
      && (forall c :: c in r.columns <==> c in t.columns)
      && (forall a, b :: 0 <= a < b < |r.columns| ==>
            IndexOf(t.columns, r.columns[a]) < IndexOf(t.columns, r.columns[b]))
  {
    var r := DedupeColumns(t);
    forall c | c in t.columns
      ensures c in r.columns
    {
      DedupePosition(t, c);
    }
  }

  /** De-duplication keeps every name. */
  lemma DedupeHas(t: Table, c: string)
    ensures c in DedupeColumns(t).columns <==> c in t.columns
  {
    DedupeColumnsNames(t);
  }

  /** The rows are kept, and every name reads the cells of its first input column. */
  lemma DedupeColumnsCells(t: Table)
    requires t.Shaped()
    ensures var r := DedupeColumns(t);
      && r.Shaped()
      && |r.rows| == |t.rows|
      && (forall i, c :: Get(r, i, c) == Get(t, i, c))
  {
    forall i, c
      ensures Get(DedupeColumns(t), i, c) == Get(t, i, c)
    {
      DedupeGet(t, i, c);
    }
  }

  lemma DedupeGet(t: Table, i: int, c: string)
    requires t.Shaped()
    ensures Get(DedupeColumns(t), i, c) == Get(t, i, c)
  {
    if 0 <= i < |t.rows| {
      if c in t.columns {
        DedupePosition(t, c);
      } else {
        DedupeColumnsNames(t);
      }
    }
  }

  /** A table without duplicated names is left as it is. */
  lemma DedupeColumnsNoop(t: Table)
    requires t.Shaped() && Distinct(t.columns)
    ensures DedupeColumns(t) == t
  {
    var mask := FirstMask(t.columns);
    forall x | 0 <= x < |t.columns|
      ensures mask[x]
    {
      var k := IndexOf(t.columns, t.columns[x]);
      assert k == x;
    }
    KeptAll(mask);
    var r := DedupeColumns(t);
    assert r.columns == t.columns;
    forall i | 0 <= i < |t.rows|
      ensures r.rows[i] == t.rows[i]
    {
    }
  }

  // --------------------------------------------------- player-season fact

  /** `KEY_FACT`: the grain of the fact table. */
  const FactKey: string := "player_team_season_id"

  /** The fact columns taken when present, in this order. */
  const BaseCols: seq<string> := [
    "player_team_season_id",
    "player_id", "team_id", "league", "season",
    "minutes", "nineties", "position_bucket",
    "pct_scope_default",
    "pass_cmp_pct", "passes_att_p90", "prog_passes_p90", "passes_final_third_p90",
    "long_pass_cmp_pct", "key_passes_p90", "xa_p90", "crosses_pa_p90",
    "tkl_int_p90", "clr_p90", "errors_p90", "aerial_win_pct",
    "prog_carries_p90", "carries_pa_p90", "succ_takeons_p90", "takeon_succ_pct",
    "sca_p90", "mis_dis_p90", "fouls_p90", "Per_90_Minutes_npxG"
  ]

  /** `c.startswith(("pct_", "score_"))`: percentile and role-score columns. */
  predicate IsExtra(c: string) {
    StartsWith(c, "pct_") || StartsWith(c, "score_")
  }

  /** The listed columns, then the input's extra columns in input order. */
  function Wanted(listed: seq<string>, columns: seq<string>): seq<string> {
    listed + Filter(columns, IsExtra)
  }

  /** `_unique_preserve_order([c for c in base_cols + extra if c in df.columns])`. */
  function FactColumns(columns: seq<string>): (r: seq<string>)
    ensures forall k :: 0 <= k < |r| ==> r[k] in columns
  {
    PresentDedup(Wanted(BaseCols, columns), columns);
    Dedup(PresentColumns(Wanted(BaseCols, columns), columns))
  }

  /**
   * The fact columns: no repeats; exactly the present columns that are listed
   * or are `pct_*`/`score_*`; listed columns first in listed order, then the
   * extra columns in input order.
   */
  lemma FactColumnsSpec(columns: seq<string>)
    ensures var r := FactColumns(columns);
      && Distinct(r)
      && (forall c :: c in r <==> c in columns && (c in BaseCols || IsExtra(c)))
      && (forall i, j :: 0 <= i < j < |r| ==>
            FirstIndex(Wanted(BaseCols, columns), Id, r[i]) < FirstIndex(Wanted(BaseCols, columns), Id, r[j]))
  {
    PresentDedup(Wanted(BaseCols, columns), columns);
  }

  /** The fact id of a row laid out by `cols`. */
  function FactKeyFn(cols: seq<string>): seq<Cell> -> seq<Cell> {
    row => [RowGet(cols, row, FactKey)]
  }

  /** The selected, de-duplicated columns before the grain is enforced. */
  function Selected(df: Table): Table {
    var d := DedupeColumns(df);
    DedupeColumns(Select(d, FactColumns(d.columns)))
  }

  /** `build_fact_player_season(df)`. */
  function BuildFactPlayerSeason(df: Table): Table {
    var out := Selected(df);
    if FactKey in out.columns then Table(out.columns, KeepFirstBy(out.rows, FactKeyFn(out.columns)))
    else out
  }

  lemma SelectedSpec(df: Table)
    requires df.Shaped()
    ensures var s := Selected(df);
      && s.Shaped()
      && s.columns == FactColumns(DedupeColumns(df).columns)
      && |s.rows| == |df.rows|
      && (forall i, c :: c in s.columns ==> Get(s, i, c) == Get(df, i, c))
  {
    var d := DedupeColumns(df);
    DedupeColumnsNames(df);
    DedupeColumnsCells(df);
    var cols := FactColumns(d.columns);
    FactColumnsSpec(d.columns);
    DedupeColumnsNoop(Select(d, cols));
    forall i, c | c in cols
      ensures Get(Select(d, cols), i, c) == Get(df, i, c)
    {
      SelectGet(d, cols, i, c);
    }
  }

  /** The fact table is well formed and has the fact columns of the de-duplicated input. */
  lemma FactShape(df: Table)
    requires df.Shaped()
    ensures var f := BuildFactPlayerSeason(df);
      && f.Shaped()
      && f.columns == FactColumns(DedupeColumns(df).columns)
      && |f.rows| <= |df.rows|
  {
    SelectedSpec(df);
    var s := Selected(df);
    if FactKey in s.columns {
      KeepFirstShaped(s, FactKeyFn(s.columns));
    }
  }

  /** Keeping the first row of each key keeps the table well formed. */
  lemma KeepFirstShaped(t: Table, key: seq<Cell> -> seq<Cell>)
    requires t.Shaped()
    ensures var f := Table(t.columns, KeepFirstBy(t.rows, key));
      f.Shaped() && |f.rows| <= |t.rows|
  {
    KeepFirstByFirst(t.rows, key);
    var r := KeepFirstBy(t.rows, key);
    forall i | 0 <= i < |r|
      ensures |r[i]| == |t.columns|
    {
      assert r[i] == t.rows[FirstIndex(t.rows, key, key(r[i]))];
    }
  }

  /** Row `k` of `f` holds, in every column of `f`, the values of some row of `t`. */
  predicate FromSomeRow(f: Table, k: int, t: Table) {
    exists j :: 0 <= j < |t.rows| && KeyOf(f, k, f.columns) == KeyOf(t, j, f.columns)
  }

  /** Index of the first input row whose id is `id` (`|df.rows|` when none is). */
  function IdSource(df: Table, id: Cell): nat {
    FirstIndex(df.rows, FactKeyFn(df.columns), [id])
  }

  /**
   * `drop_duplicates(subset=KEY_FACT, keep="first")`: fact row `k` holds the
   * values of the first input row with its id, and fact rows come in the
   * order of those input rows.
   */
  ghost predicate KeptFirst(f: Table, df: Table) {
    && (forall k :: 0 <= k < |f.rows| ==>
          var j := IdSource(df, Get(f, k, FactKey));
          && j < |df.rows|
          && Get(df, j, FactKey) == Get(f, k, FactKey)
          && (forall i :: 0 <= i < j ==> Get(df, i, FactKey) != Get(f, k, FactKey))
          && KeyOf(f, k, f.columns) == KeyOf(df, j, f.columns))
    && (forall k1, k2 :: 0 <= k1 < k2 < |f.rows| ==>
          IdSource(df, Get(f, k1, FactKey)) < IdSource(df, Get(f, k2, FactKey)))
  }

  /**
   * Every fact row holds, in every fact column, the values of some input row;
   * with the id column, that row is the first input row with its id, in input order.
   */
  lemma FactRowsFromInput(df: Table)
    requires df.Shaped()
    ensures var f := BuildFactPlayerSeason(df);
      forall k :: 0 <= k < |f.rows| ==> FromSomeRow(f, k, df)
    ensures var f := BuildFactPlayerSeason(df);
      FactKey in f.columns ==> KeptFirst(f, df)
  {
    var f := BuildFactPlayerSeason(df);
    if FactKey in f.columns {
      FactKeptFirst(df);
    }
    forall k | 0 <= k < |f.rows|
      ensures FromSomeRow(f, k, df)
    {
      var j := FactRowSource(df, k);
      FactRowCells(df, k, j);
    }
  }

  lemma FactKeptFirst(df: Table)
    requires df.Shaped() && FactKey in BuildFactPlayerSeason(df).columns
    ensures KeptFirst(BuildFactPlayerSeason(df), df)
  {
    var s := Selected(df);
    var f := BuildFactPlayerSeason(df);
    var key := FactKeyFn(s.columns);
    forall k | 0 <= k < |f.rows|
      ensures var j := IdSource(df, Get(f, k, FactKey));
        && j < |df.rows|
        && Get(df, j, FactKey) == Get(f, k, FactKey)
        && (forall i :: 0 <= i < j ==> Get(df, i, FactKey) != Get(f, k, FactKey))
        && KeyOf(f, k, f.columns) == KeyOf(df, j, f.columns)
    {
      KeptRow(df, s, key, f, k);
    }
    forall k1, k2 | 0 <= k1 < k2 < |f.rows|
      ensures IdSource(df, Get(f, k1, FactKey)) < IdSource(df, Get(f, k2, FactKey))
    {
      KeptOrder(df, s, key, f, k1, k2);
    }
  }

  /** Fact row `k` holds the first input row with its id. */
  lemma KeptRow(df: Table, s: Table, key: seq<Cell> -> seq<Cell>, f: Table, k: int)
    requires df.Shaped() && s == Selected(df) && FactKey in s.columns && key == FactKeyFn(s.columns)
    requires f.columns == s.columns && f.rows == KeepFirstBy(s.rows, key) && 0 <= k < |f.rows|
    ensures var j := IdSource(df, Get(f, k, FactKey));
      && j < |df.rows|
      && Get(df, j, FactKey) == Get(f, k, FactKey)
      && (forall i :: 0 <= i < j ==> Get(df, i, FactKey) != Get(f, k, FactKey))
      && KeyOf(f, k, f.columns) == KeyOf(df, j, f.columns)
  {
    var id := Get(f, k, FactKey);
    assert key(f.rows[k]) == [id];
    KeepFirstByFirst(s.rows, key);
    SourceIndex(df, s, key, id);
    var j := IdSource(df, id);
    SelectedSpec(df);
    RowCellsFrom(f, s, df, k, j);
  }

  /** Fact rows come in the order of their source rows. */
  lemma KeptOrder(df: Table, s: Table, key: seq<Cell> -> seq<Cell>, f: Table, k1: int, k2: int)
    requires df.Shaped() && s == Selected(df) && FactKey in s.columns && key == FactKeyFn(s.columns)
    requires f.columns == s.columns && f.rows == KeepFirstBy(s.rows, key) && 0 <= k1 < k2 < |f.rows|
    ensures IdSource(df, Get(f, k1, FactKey)) < IdSource(df, Get(f, k2, FactKey))
  {
    assert key(f.rows[k1]) == [Get(f, k1, FactKey)];
    assert key(f.rows[k2]) == [Get(f, k2, FactKey)];
    KeepFirstByOrder(s.rows, key);
    SourceIndex(df, s, key, Get(f, k1, FactKey));
    SourceIndex(df, s, key, Get(f, k2, FactKey));
  }

  /** An id is found at the same row of the selected table and of the input. */
  lemma SourceIndex(df: Table, s: Table, key: seq<Cell> -> seq<Cell>, id: Cell)
    requires df.Shaped() && s == Selected(df) && FactKey in s.columns && key == FactKeyFn(s.columns)
    ensures FirstIndex(s.rows, key, [id]) == IdSource(df, id)
  {
    SourceKeys(df, s);
    FirstIndexSameKeys(s.rows, key, df.rows, FactKeyFn(df.columns), [id]);
  }

  /** The selected table reads the ids of the input, row by row. */
  lemma SourceKeys(df: Table, s: Table)
    requires df.Shaped() && s == Selected(df) && FactKey in s.columns
    ensures |s.rows| == |df.rows|
    ensures forall i :: 0 <= i < |s.rows| ==> FactKeyFn(s.columns)(s.rows[i]) == FactKeyFn(df.columns)(df.rows[i])
  {
    SelectedSpec(df);
    forall i | 0 <= i < |s.rows|
      ensures FactKeyFn(s.columns)(s.rows[i]) == FactKeyFn(df.columns)(df.rows[i])
    {
      assert Get(s, i, FactKey) == Get(df, i, FactKey);
    }
  }

  lemma FactRowCells(df: Table, k: int, j: nat)
    requires df.Shaped()
    requires 0 <= k < |BuildFactPlayerSeason(df).rows| && j < |Selected(df).rows|
    requires BuildFactPlayerSeason(df).rows[k] == Selected(df).rows[j]
    ensures var f := BuildFactPlayerSeason(df);
      j < |df.rows| && KeyOf(f, k, f.columns) == KeyOf(df, j, f.columns)
  {
    SelectedSpec(df);
    var s := Selected(df);
    var f := BuildFactPlayerSeason(df);
    assert f.columns == s.columns;
    RowCellsFrom(f, s, df, k, j);
  }

  /** A row copied from `s`, whose cells read as those of `df`, reads as the row of `df`. */
  lemma RowCellsFrom(f: Table, s: Table, df: Table, k: int, j: int)
    requires f.columns == s.columns && 0 <= k < |f.rows| && 0 <= j < |s.rows| && f.rows[k] == s.rows[j]
    requires |s.rows| == |df.rows| && forall i, c :: c in s.columns ==> Get(s, i, c) == Get(df, i, c)
    ensures j < |df.rows| && KeyOf(f, k, f.columns) == KeyOf(df, j, f.columns)
  {
    forall q | 0 <= q < |f.columns|
      ensures Get(f, k, f.columns[q]) == Get(df, j, f.columns[q])
    {
      assert Get(f, k, f.columns[q]) == Get(s, j, f.columns[q]);
    }
  }

  /** The input row a fact row was taken from. */
  lemma FactRowSource(df: Table, k: int) returns (j: nat)
    requires df.Shaped()
    requires 0 <= k < |BuildFactPlayerSeason(df).rows|
    ensures j < |Selected(df).rows|
    ensures BuildFactPlayerSeason(df).rows[k] == Selected(df).rows[j]
  {
    var s := Selected(df);
    if FactKey in s.columns {
      var key := FactKeyFn(s.columns);
      KeepFirstByFirst(s.rows, key);
      var f := KeepFirstBy(s.rows, key);
      j := FirstIndex(s.rows, key, key(f[k]));
    } else {
      j := k;
    }
  }

  /** With the id column, the fact table has at most one row per id. */
  lemma FactUnique(df: Table)
    requires FactKey in BuildFactPlayerSeason(df).columns
    ensures UniqueOn(BuildFactPlayerSeason(df), [FactKey])
  {
    var s := Selected(df);
    var f := BuildFactPlayerSeason(df);
    var key := FactKeyFn(s.columns);
    KeepFirstByDistinct(s.rows, key);
    forall a, b | 0 <= a < b < |f.rows|
      ensures KeyOf(f, a, [FactKey]) != KeyOf(f, b, [FactKey])
    {
      FactKeyCell(df, a);
      FactKeyCell(df, b);
    }
  }

  /** With the id column, every id of the input has a fact row. */
  lemma FactCovers(df: Table)
    requires df.Shaped()
    requires FactKey in BuildFactPlayerSeason(df).columns
    ensures forall j :: 0 <= j < |df.rows| ==> HasFactRow(BuildFactPlayerSeason(df), Get(df, j, FactKey))
  {
    forall j | 0 <= j < |df.rows|
      ensures HasFactRow(BuildFactPlayerSeason(df), Get(df, j, FactKey))
    {
      FactCoversRow(df, j);
    }
  }

  lemma FactCoversRow(df: Table, j: int)
    requires df.Shaped() && 0 <= j < |df.rows|
    requires FactKey in BuildFactPlayerSeason(df).columns
    ensures HasFactRow(BuildFactPlayerSeason(df), Get(df, j, FactKey))
  {
    var s := Selected(df);
    var f := BuildFactPlayerSeason(df);
    var key := FactKeyFn(s.columns);
    KeepFirstByCovers(s.rows, key);
    SelectedSpec(df);
    var k := FirstIndex(f.rows, key, key(s.rows[j]));
    FactKeyCell(df, k);
    assert Get(s, j, FactKey) == key(s.rows[j])[0];
  }

  /** Some row of `f` has this id. */
  predicate HasFactRow(f: Table, id: Cell) {
    exists k :: 0 <= k < |f.rows| && Get(f, k, FactKey) == id
  }

  lemma FactKeyCell(df: Table, k: int)
    requires 0 <= k < |BuildFactPlayerSeason(df).rows|
    ensures var f := BuildFactPlayerSeason(df);
      KeyOf(f, k, [FactKey]) == FactKeyFn(f.columns)(f.rows[k])
  {
  }

  /** Without the id column, every input row is kept, in order. */
  lemma FactNoKey(df: Table)
    requires df.Shaped()
    requires FactKey !in BuildFactPlayerSeason(df).columns
    ensures var f := BuildFactPlayerSeason(df);
      && |f.rows| == |df.rows|
      && forall k :: 0 <= k < |f.rows| ==> KeyOf(f, k, f.columns) == KeyOf(df, k, f.columns)
  {
    SelectedSpec(df);
  }

  // ---------------------------------------------------- role profile card

  /** The id columns copied into every header block, when the scored table has them. */
  const IdCols: seq<string> := [
    "player_team_season_id", "player_id", "team_id", "league", "season",
    "minutes", "position_bucket"
  ]

  /** The candidate keys of the join to the long percentiles. */
  const JoinKeys: seq<string> := [
    "player_team_season_id", "player_id", "team_id", "league", "season",
    "position_bucket", "minutes"
  ]

  predicate IsScore(c: string) {
    StartsWith(c, "score_")
  }

  /** `c.replace("score_", "")`: every occurrence is removed, not only the prefix. */
  function RoleId(c: string): string {
    ReplaceAll(c, "score_", "")
  }

  /** `role_ids`: the id of every `score_*` column, in column order. */
  function RoleIds(cols: seq<string>): seq<string> {
    var roles := Filter(cols, IsScore);
    seq(|roles|, k requires 0 <= k < |roles| => RoleId(roles[k]))
  }

  /** The columns of every header block: the id columns, then `role_id` and `role_score`. */
  function HeaderColumns(ids: seq<string>): seq<string> {
    ids + ["role_id", "role_score"]
  }

  /** Row `i` of the block of role `rid`: the id cells, the role id and the role's score. */
  function HeaderRow(d: Table, ids: seq<string>, rid: string, i: int): seq<Cell> {
    seq(|ids|, k requires 0 <= k < |ids| => Get(d, i, ids[k])) + [Str(rid), Get(d, i, "score_" + rid)]
  }

  /** `tmp`: the block of role `rid`, one row per scored row. */
  function BlockOf(d: Table, ids: seq<string>, rid: string): Table {
    Table(HeaderColumns(ids), seq(|d.rows|, i requires 0 <= i < |d.rows| => HeaderRow(d, ids, rid, i)))
  }

  /** The role ids whose `score_<id>` column exists, in order. */
  function UsedIds(d: Table, rids: seq<string>): (r: seq<string>)
    ensures forall rid :: rid in r <==> rid in rids && "score_" + rid in d.columns
  {
    if rids == [] then []
    else
      var init := UsedIds(d, rids[..|rids| - 1]);
      var rid := rids[|rids| - 1];
      assert rids == rids[..|rids| - 1] + [rid];
      if "score_" + rid in d.columns then init + [rid] else init
  }

  /** `headers` after the loop over `rids`: a block per role whose score column exists. */
  function HeaderBlocks(d: Table, ids: seq<string>, rids: seq<string>): seq<Table> {
    if rids == [] then []
    else
      var init := HeaderBlocks(d, ids, rids[..|rids| - 1]);
      var rid := rids[|rids| - 1];
      if "score_" + rid in d.columns then init + [BlockOf(d, ids, rid)] else init
  }

  /** The rows of the blocks, one block after the other (`pd.concat(..., ignore_index=True)`). */
  function ConcatRows(ts: seq<Table>): seq<seq<Cell>> {
    if ts == [] then [] else ConcatRows(ts[..|ts| - 1]) + ts[|ts| - 1].rows
  }

  /** `header`: the concatenated blocks, keeping the rows whose role score is not null. */
  function HeaderOf(blocks: seq<Table>): Option<Table> {
    if blocks == [] then None
    else
      var all := Table(blocks[0].columns, ConcatRows(blocks));
      Some(Where(all, NotNullMask(all, "role_score")))
  }

  /** `join_keys`: the candidate keys present in both tables, in candidate order. */
  function JoinKeysOf(hcols: seq<string>, pcols: seq<string>): seq<string> {
    Filter(JoinKeys, k => k in hcols && k in pcols)
  }

  /** Everything after the header loop, for a merge validated by `v`. */
  function CardOf(blocks: seq<Table>, p: Table, v: Validate): Result<Table> {
    match HeaderOf(blocks)
    case None => Ok(Table([], []))
    case Some(h) =>
      match MergeLeft(h, p, JoinKeysOf(h.columns, p.columns), v)
      case Err(e) => Err(e)
      case Ok(o) => Ok(DedupeColumns(o))
  }

  /** The id columns of the de-duplicated scored table. */
  function IdsOf(d: Table): seq<string> {
    PresentColumns(IdCols, d.columns)
  }

  /** The header blocks of the de-duplicated scored table. */
  function BlocksOf(d: Table): seq<Table> {
    HeaderBlocks(d, IdsOf(d), RoleIds(d.columns))
  }

  /** The role header of the de-duplicated scored table, `None` when no block was built. */
  function RoleHeader(d: Table): Option<Table> {
    HeaderOf(BlocksOf(d))
  }

  /** `build_fact_role_profile_card_v2` with the merge validated by `v`. */
  function RoleCardWith(scored: Table, pl: Table, v: Validate): Result<Table> {
    CardOf(BlocksOf(DedupeColumns(scored)), DedupeColumns(pl), v)
  }

  /** The source as written: the merge is validated "1:m". */
  function RoleCardAsWritten(scored: Table, pl: Table): Result<Table> {
    RoleCardWith(scored, pl, OneToMany)
  }

  /** The role card with the merge validated "m:m", as the grain player x role x kpi needs. */
  function RoleCard(scored: Table, pl: Table): Result<Table> {
    RoleCardWith(scored, pl, ManyToMany)
  }

  /** `build_fact_role_profile_card_v2`, building the header blocks in a loop. */
  method BuildFactRoleProfileCard(scored: Table, pl: Table) returns (r: Result<Table>)
    ensures r == RoleCard(scored, pl)
  {
    var d := DedupeColumns(scored);
    var p := DedupeColumns(pl);
    var rids := RoleIds(d.columns);
    var ids := PresentColumns(IdCols, d.columns);
    var headers: seq<Table> := [];
    var k := 0;
    while k < |rids|
      invariant 0 <= k <= |rids|
      invariant headers == HeaderBlocks(d, ids, rids[..k])
    {
      var rid := rids[k];
      HeaderBlocksStep(d, ids, rids, k);
      if "score_" + rid in d.columns {
        headers := headers + [BlockOf(d, ids, rid)];
      }
      k := k + 1;
    }
    assert rids[..|rids|] == rids;
    assert headers == BlocksOf(d);
    r := CardOf(headers, p, ManyToMany);
  }

  /** One turn of the header loop appends the block of `rids[k]` when its score column exists. */
  lemma HeaderBlocksStep(d: Table, ids: seq<string>, rids: seq<string>, k: int)
    requires 0 <= k < |rids|
    ensures HeaderBlocks(d, ids, rids[..k + 1]) ==
      if "score_" + rids[k] in d.columns then HeaderBlocks(d, ids, rids[..k]) + [BlockOf(d, ids, rids[k])]
      else HeaderBlocks(d, ids, rids[..k])
  {
    assert rids[..k + 1][..k] == rids[..k];
  }

  // ------------------------------------------------- role card properties

  /** The role ids whose score column exists, for the de-duplicated scored table. */
  function UsedOf(d: Table): seq<string> {
    UsedIds(d, RoleIds(d.columns))
  }

  /** Row `i` of `d` has a score for role `rid`. */
  predicate Scored(d: Table, rid: string, i: int) {
    0 <= i < |d.rows| && Get(d, i, "score_" + rid) != Null
  }

  /** The loop builds one block per used role id, in order. */
  lemma {:induction false} HeaderBlocksSpec(d: Table, ids: seq<string>, rids: seq<string>)
    ensures |HeaderBlocks(d, ids, rids)| == |UsedIds(d, rids)|
    ensures forall b :: 0 <= b < |HeaderBlocks(d, ids, rids)| ==>
      HeaderBlocks(d, ids, rids)[b] == BlockOf(d, ids, UsedIds(d, rids)[b])
  {
    if rids != [] {
      HeaderBlocksSpec(d, ids, rids[..|rids| - 1]);
    }
  }

  /** Concatenating blocks of `n` rows each gives `n` rows per block. */
  lemma {:induction false} ConcatLength(ts: seq<Table>, n: nat)
    requires forall b :: 0 <= b < |ts| ==> |ts[b].rows| == n
    ensures |ConcatRows(ts)| == |ts| * n
  {
    if ts != [] {
      var m := |ts| - 1;
      ConcatLength(ts[..m], n);
      assert |ts| * n == m * n + n;
    }
  }

  /** Row `i` of block `b` sits at position `b * n + i`. */
  lemma {:induction false} ConcatAt(ts: seq<Table>, n: nat, b: nat, i: nat)
    requires forall b :: 0 <= b < |ts| ==> |ts[b].rows| == n
    requires b < |ts| && i < n
    ensures b * n + i < |ConcatRows(ts)| && ConcatRows(ts)[b * n + i] == ts[b].rows[i]
  {
    var m := |ts| - 1;
    var init := ts[..m];
    ConcatLength(init, n);
    assert ConcatRows(ts) == ConcatRows(init) + ts[m].rows;
    if b < m {
      ConcatAt(init, n, b, i);
      assert init[b] == ts[b];
    }
  }

  /** Every row of every block is among the concatenated rows. */
  lemma {:induction false} ConcatHas(ts: seq<Table>, b: int, i: int)
    requires 0 <= b < |ts| && 0 <= i < |ts[b].rows|
    ensures ts[b].rows[i] in ConcatRows(ts)
  {
    var m := |ts| - 1;
    var init := ts[..m];
    assert ConcatRows(ts) == ConcatRows(init) + ts[m].rows;
    if b < m {
      assert init[b] == ts[b];
      ConcatHas(init, b, i);
    }
  }

  /** Every concatenated row is a row of some block. */
  lemma {:induction false} ConcatFrom(ts: seq<Table>, n: nat, q: nat)
    requires forall b :: 0 <= b < |ts| ==> |ts[b].rows| == n
    requires q < |ConcatRows(ts)|
    ensures exists b, i :: 0 <= b < |ts| && 0 <= i < n && ConcatRows(ts)[q] == ts[b].rows[i]
  {
    var m := |ts| - 1;
    var init := ts[..m];
    assert ConcatRows(ts) == ConcatRows(init) + ts[m].rows;
    if q < |ConcatRows(init)| {
      ConcatFrom(init, n, q);
      var b, i :| 0 <= b < |init| && 0 <= i < n && ConcatRows(init)[q] == init[b].rows[i];
      assert ConcatRows(ts)[q] == ts[b].rows[i];
    } else {
      assert ConcatRows(ts)[q] == ts[m].rows[q - |ConcatRows(init)|];
    }
  }

  /** A header row reads the id cells of its input row, its role id and the role's score. */
  lemma HeaderRowCells(d: Table, ids: seq<string>, rid: string, i: int)
    requires "role_id" !in ids && "role_score" !in ids
    ensures forall c :: c in ids ==> RowGet(HeaderColumns(ids), HeaderRow(d, ids, rid, i), c) == Get(d, i, c)
    ensures RowGet(HeaderColumns(ids), HeaderRow(d, ids, rid, i), "role_id") == Str(rid)
    ensures RowGet(HeaderColumns(ids), HeaderRow(d, ids, rid, i), "role_score") == Get(d, i, "score_" + rid)
  {
    var cols := HeaderColumns(ids);
    forall c | c in ids
      ensures RowGet(cols, HeaderRow(d, ids, rid, i), c) == Get(d, i, c)
    {
      IndexOfAppend(ids, ["role_id", "role_score"], c);
    }
    assert cols[|ids|] == "role_id";
    assert IndexOf(cols, "role_id") == |ids|;
    assert cols[|ids| + 1] == "role_score";
    assert IndexOf(cols, "role_score") == |ids| + 1;
  }

  lemma IdsOfSpec(d: Table)
    ensures "role_id" !in IdsOf(d) && "role_score" !in IdsOf(d)
    ensures forall c :: c in IdsOf(d) <==> c in IdCols && c in d.columns
  {
  }

  /** Before the null filter: the header has one row per (used role, input row). */
  lemma HeaderRowCount(d: Table, ids: seq<string>, rids: seq<string>)
    ensures |ConcatRows(HeaderBlocks(d, ids, rids))| == |UsedIds(d, rids)| * |d.rows|
  {
    HeaderBlocksSpec(d, ids, rids);
    ConcatLength(HeaderBlocks(d, ids, rids), |d.rows|);
  }

  /** Row `i` of the block of the `b`-th used role sits at `b * |d.rows| + i`, role by role. */
  lemma HeaderRowIndex(d: Table, ids: seq<string>, rids: seq<string>, b: nat, i: nat)
    requires b < |UsedIds(d, rids)| && i < |d.rows|
    ensures b * |d.rows| + i < |ConcatRows(HeaderBlocks(d, ids, rids))|
    ensures ConcatRows(HeaderBlocks(d, ids, rids))[b * |d.rows| + i] == HeaderRow(d, ids, UsedIds(d, rids)[b], i)
  {
    var blocks := HeaderBlocks(d, ids, rids);
    HeaderBlocksSpec(d, ids, rids);
    ConcatAt(blocks, |d.rows|, b, i);
    assert blocks[b] == BlockOf(d, ids, UsedIds(d, rids)[b]);
  }

  /** Every row before the null filter is the header row of some used role and input row. */
  lemma HeaderRowFrom(d: Table, ids: seq<string>, rids: seq<string>, q: nat)
    requires q < |ConcatRows(HeaderBlocks(d, ids, rids))|
    ensures exists b, i ::
      && 0 <= b < |UsedIds(d, rids)| && 0 <= i < |d.rows|
      && ConcatRows(HeaderBlocks(d, ids, rids))[q] == HeaderRow(d, ids, UsedIds(d, rids)[b], i)
  {
    var blocks := HeaderBlocks(d, ids, rids);
    HeaderBlocksSpec(d, ids, rids);
    ConcatFrom(blocks, |d.rows|, q);
    var b, i :| 0 <= b < |blocks| && 0 <= i < |d.rows| && ConcatRows(blocks)[q] == blocks[b].rows[i];
    assert blocks[b] == BlockOf(d, ids, UsedIds(d, rids)[b]);
  }

  /** No header exactly when no `score_<id>` column was found for any role id. */
  lemma RoleHeaderNone(d: Table)
    ensures RoleHeader(d).None? <==> UsedOf(d) == []
  {
    HeaderBlocksSpec(d, IdsOf(d), RoleIds(d.columns));
  }

  /** The header has the id columns present, then `role_id` and `role_score`. */
  lemma RoleHeaderShape(d: Table)
    requires RoleHeader(d).Some?
    ensures RoleHeader(d).value.Shaped()
    ensures RoleHeader(d).value.columns == HeaderColumns(IdsOf(d))
  {
    var blocks := BlocksOf(d);
    HeaderBlocksSpec(d, IdsOf(d), RoleIds(d.columns));
    var all := Table(blocks[0].columns, ConcatRows(blocks));
    forall q | 0 <= q < |all.rows|
      ensures |all.rows[q]| == |all.columns|
    {
      ConcatFrom(blocks, |d.rows|, q);
    }
  }

  /**
   * The header rows are exactly the rows of the used roles whose score is
   * not null, each with its input row's id cells, its role id and its score.
   */
  lemma RoleHeaderRows(d: Table, x: seq<Cell>)
    requires RoleHeader(d).Some?
    ensures x in RoleHeader(d).value.rows <==>
      exists b, i :: 0 <= b < |UsedOf(d)| && Scored(d, UsedOf(d)[b], i) && x == HeaderRow(d, IdsOf(d), UsedOf(d)[b], i)
  {
    if x in RoleHeader(d).value.rows {
      HeaderRowSound(d, x);
    }
    if b, i :| 0 <= b < |UsedOf(d)| && Scored(d, UsedOf(d)[b], i) && x == HeaderRow(d, IdsOf(d), UsedOf(d)[b], i) {
      HeaderRowComplete(d, b, i);
    }
  }

  lemma HeaderRowSound(d: Table, x: seq<Cell>)
    requires RoleHeader(d).Some? && x in RoleHeader(d).value.rows
    ensures exists b, i :: 0 <= b < |UsedOf(d)| && Scored(d, UsedOf(d)[b], i) && x == HeaderRow(d, IdsOf(d), UsedOf(d)[b], i)
  {
    var ids := IdsOf(d);
    var used := UsedOf(d);
    var blocks := BlocksOf(d);
    HeaderBlocksSpec(d, ids, RoleIds(d.columns));
    IdsOfSpec(d);
    var all := Table(blocks[0].columns, ConcatRows(blocks));
    var mask := NotNullMask(all, "role_score");
    var h := RoleHeader(d).value;
    var k :| 0 <= k < |h.rows| && h.rows[k] == x;
    var q := Kept(mask)[k];
    assert x == all.rows[q];
    HeaderRowFrom(d, ids, RoleIds(d.columns), q);
    var b, i :| 0 <= b < |used| && 0 <= i < |d.rows| && ConcatRows(blocks)[q] == HeaderRow(d, ids, used[b], i);
    HeaderRowCells(d, ids, used[b], i);
    assert Get(all, q, "role_score") == Get(d, i, "score_" + used[b]);
  }

  lemma HeaderRowComplete(d: Table, b: int, i: int)
    requires RoleHeader(d).Some?
    requires 0 <= b < |UsedOf(d)| && Scored(d, UsedOf(d)[b], i)
    ensures HeaderRow(d, IdsOf(d), UsedOf(d)[b], i) in RoleHeader(d).value.rows
  {
    var ids := IdsOf(d);
    var used := UsedOf(d);
    var blocks := BlocksOf(d);
    HeaderBlocksSpec(d, ids, RoleIds(d.columns));
    IdsOfSpec(d);
    var all := Table(blocks[0].columns, ConcatRows(blocks));
    var mask := NotNullMask(all, "role_score");
    var h := RoleHeader(d).value;
    var x := HeaderRow(d, ids, used[b], i);
    assert blocks[b].rows[i] == x;
    ConcatHas(blocks, b, i);
    var q :| 0 <= q < |all.rows| && all.rows[q] == x;
    HeaderRowCells(d, ids, used[b], i);
    assert mask[q];
    var k :| 0 <= k < |Kept(mask)| && Kept(mask)[k] == q;
    assert h.rows[k] == x;
  }

  /**
   * A score column whose name has no second "score_" gives the rest of its
   * name as role id, and that id leads back to the column.
   */
  lemma RoleIdRoundTrip(c: string)
    requires IsScore(c) && !Contains(c[6..], "score_")
    ensures RoleId(c) == c[6..]
    ensures "score_" + RoleId(c) == c
  {
    assert c[..6] == "score_";
    ReplaceAbsent(c[6..], "score_", "");
    assert c == c[..6] + c[6..];
  }

  /** Every score column of the input yields a role id. */
  lemma RoleIdsHave(cols: seq<string>, c: string)
    requires c in cols && IsScore(c)
    ensures RoleId(c) in RoleIds(cols)
  {
    var roles := Filter(cols, IsScore);
    var k :| 0 <= k < |roles| && roles[k] == c;
    assert RoleIds(cols)[k] == RoleId(c);
  }

  /** Only score columns yield role ids. */
  lemma RoleIdsFrom(cols: seq<string>, rid: string)
    requires rid in RoleIds(cols)
    ensures exists c :: c in cols && IsScore(c) && rid == RoleId(c)
  {
    var roles := Filter(cols, IsScore);
    var k :| 0 <= k < |RoleIds(cols)| && RoleIds(cols)[k] == rid;
    assert roles[k] in roles;
  }

  /** A score column with no second "score_" in its name gets a header block. */
  lemma ScoreColumnUsed(scored: Table, c: string)
    requires c in scored.columns && IsScore(c) && !Contains(c[6..], "score_")
    ensures c[6..] in UsedOf(DedupeColumns(scored))
  {
    var d := DedupeColumns(scored);
    DedupeColumnsNames(scored);
    RoleIdsHave(d.columns, c);
    RoleIdRoundTrip(c);
  }

  /** Without any `score_*` column there is no header and the card is an empty table. */
  lemma NoScoresEmpty(scored: Table, pl: Table)
    requires forall c :: c in scored.columns ==> !IsScore(c)
    ensures RoleCard(scored, pl) == Ok(Table([], []))
    ensures RoleCardAsWritten(scored, pl) == Ok(Table([], []))
  {
    var d := DedupeColumns(scored);
    DedupeColumnsNames(scored);
    if UsedOf(d) != [] {
      var rid := UsedOf(d)[0];
      RoleIdsFrom(d.columns, rid);
    }
    RoleHeaderNone(d);
  }

  /** The join keys are the candidate keys that both input tables have. */
  lemma JoinKeysSpec(scored: Table, pl: Table, k: string)
    ensures k in JoinKeysOf(HeaderColumns(IdsOf(DedupeColumns(scored))), DedupeColumns(pl).columns) <==>
      k in JoinKeys && k in scored.columns && k in pl.columns
  {
    DedupeHas(scored, k);
    DedupeHas(pl, k);
    JoinKeysIn(DedupeColumns(scored), DedupeColumns(pl), k);
  }

  lemma JoinKeysIn(d: Table, p: Table, k: string)
    ensures k in JoinKeysOf(HeaderColumns(IdsOf(d)), p.columns) <==>
      k in JoinKeys && k in d.columns && k in p.columns
  {
    var h := HeaderColumns(IdsOf(d));
    JoinKeysOfIn(h, p.columns, k);
    if k in JoinKeys {
      JoinKeysAreIds(k);
      IdsOfSpec(d);
      HeaderIdIff(IdsOf(d), k);
    }
  }

  /** Apart from `role_id` and `role_score`, the header columns are the id columns. */
  lemma HeaderIdIff(ids: seq<string>, c: string)
    requires c != "role_id" && c != "role_score"
    ensures c in HeaderColumns(ids) <==> c in ids
  {
  }

  lemma JoinKeysAreIds(k: string)
    requires k in JoinKeys
    ensures k in IdCols && k != "role_id" && k != "role_score"
  {
  }

  lemma JoinKeysOfIn(hcols: seq<string>, pcols: seq<string>, k: string)
    ensures k in JoinKeysOf(hcols, pcols) <==> k in JoinKeys && k in hcols && k in pcols
  {
  }

  /** The join keys are columns of both tables, so the merge finds all of them. */
  lemma JoinKeysPresent(h: Table, p: Table)
    ensures FirstMissing(h, JoinKeysOf(h.columns, p.columns)) == None
    ensures FirstMissing(p, JoinKeysOf(h.columns, p.columns)) == None
  {
    var keys := JoinKeysOf(h.columns, p.columns);
    forall k | k in keys
      ensures k in h.columns && k in p.columns
    {
      JoinKeysOfIn(h.columns, p.columns, k);
    }
    SharedPresent(h, p, keys);
  }

  lemma SharedPresent(h: Table, p: Table, keys: seq<string>)
    requires forall k :: k in keys ==> k in h.columns && k in p.columns
    ensures FirstMissing(h, keys) == None && FirstMissing(p, keys) == None
  {
  }

  /**
   * The card fails only for want of a join key: when a header exists but
   * the two tables share none of the candidate keys.
   */
  lemma RoleCardOutcome(scored: Table, pl: Table)
    ensures var h := RoleHeader(DedupeColumns(scored));
      RoleCard(scored, pl).Err? <==>
        h.Some? && JoinKeysOf(h.value.columns, DedupeColumns(pl).columns) == []
    ensures RoleCard(scored, pl).Err? ==> RoleCard(scored, pl).error == NoJoinKeys
  {
    var d := DedupeColumns(scored);
    assert RoleCard(scored, pl) == CardOf(BlocksOf(d), DedupeColumns(pl), ManyToMany);
    CardOfOutcome(BlocksOf(d), DedupeColumns(pl));
  }

  lemma CardOfOutcome(blocks: seq<Table>, p: Table)
    ensures var h := HeaderOf(blocks);
      CardOf(blocks, p, ManyToMany).Err? <==> h.Some? && JoinKeysOf(h.value.columns, p.columns) == []
    ensures CardOf(blocks, p, ManyToMany).Err? ==> CardOf(blocks, p, ManyToMany).error == NoJoinKeys
  {
    match HeaderOf(blocks)
    case None =>
    case Some(h) =>
      var keys := JoinKeysOf(h.columns, p.columns);
      if keys != [] {
        JoinKeysPresent(h, p);
        assert MergeLeft(h, p, keys, ManyToMany) == Ok(Joined(h, p, keys));
      }
  }

  /** Row `q` of `o` starts with some row of `h`. */
  predicate ExtendsRow(o: Table, q: int, h: Table) {
    exists i :: 0 <= i < |h.rows| && 0 <= q < |o.rows| && |h.columns| <= |o.rows[q]| && o.rows[q][..|h.columns|] == h.rows[i]
  }

  /** Row `i` of `h` starts some row of `o`. */
  predicate StartsRow(o: Table, h: Table, i: int) {
    exists q :: 0 <= q < |o.rows| && 0 <= i < |h.rows| && |h.columns| <= |o.rows[q]| && o.rows[q][..|h.columns|] == h.rows[i]
  }

  /** Every row of `o` starts with some row of `h`. */
  predicate RowsExtend(o: Table, h: Table) {
    forall q :: 0 <= q < |o.rows| ==> ExtendsRow(o, q, h)
  }

  /** Every row of `h` starts some row of `o`. */
  predicate KeepsRows(o: Table, h: Table) {
    forall i :: 0 <= i < |h.rows| ==> StartsRow(o, h, i)
  }

  /**
   * With a header and a join key, the card is the left merge of the header
   * with the long percentiles, read column by column: every header row is
   * kept (with each matching percentile row, or once with nulls), and every
   * card row extends a header row.
   */
  lemma RoleCardRows(scored: Table, pl: Table)
    requires RoleHeader(DedupeColumns(scored)).Some?
    requires JoinKeysOf(RoleHeader(DedupeColumns(scored)).value.columns, DedupeColumns(pl).columns) != []
    ensures RoleCard(scored, pl).Ok?
    ensures var h := RoleHeader(DedupeColumns(scored)).value;
      var p := DedupeColumns(pl);
      var o := Joined(h, p, JoinKeysOf(h.columns, p.columns));
      && o.Shaped()
      && RowsExtend(o, h)
      && KeepsRows(o, h)
      && |RoleCard(scored, pl).value.rows| == |o.rows|
      && forall q, c :: Get(RoleCard(scored, pl).value, q, c) == Get(o, q, c)
  {
    var h := RoleHeader(DedupeColumns(scored)).value;
    var p := DedupeColumns(pl);
    var keys := JoinKeysOf(h.columns, p.columns);
    RoleHeaderShape(DedupeColumns(scored));
    RoleCardIs(scored, pl);
    HeaderMerge(h, p, keys);
    DedupeColumnsCells(Joined(h, p, keys));
  }

  lemma RoleCardIs(scored: Table, pl: Table)
    requires RoleHeader(DedupeColumns(scored)).Some?
    requires JoinKeysOf(RoleHeader(DedupeColumns(scored)).value.columns, DedupeColumns(pl).columns) != []
    ensures var h := RoleHeader(DedupeColumns(scored)).value;
      var p := DedupeColumns(pl);
      RoleCard(scored, pl) == Ok(DedupeColumns(Joined(h, p, JoinKeysOf(h.columns, p.columns))))
  {
    var d := DedupeColumns(scored);
    var h := RoleHeader(d).value;
    var p := DedupeColumns(pl);
    var keys := JoinKeysOf(h.columns, p.columns);
    assert HeaderOf(BlocksOf(d)) == Some(h);
    JoinKeysPresent(h, p);
    assert MergeLeft(h, p, keys, ManyToMany) == Ok(Joined(h, p, keys));
    assert RoleCard(scored, pl) == CardOf(BlocksOf(d), p, ManyToMany);
  }

  lemma HeaderMerge(h: Table, p: Table, keys: seq<string>)
    requires h.Shaped()
    ensures var o := Joined(h, p, keys);
      o.Shaped() && RowsExtend(o, h) && KeepsRows(o, h)
  {
    JoinedShaped(h, p, keys);
    HeaderMergeExtends(h, p, keys);
    HeaderMergeKeeps(h, p, keys);
  }

  lemma HeaderMergeExtends(h: Table, p: Table, keys: seq<string>)
    requires h.Shaped()
    ensures RowsExtend(Joined(h, p, keys), h)
  {
    var o := Joined(h, p, keys);
    forall q | 0 <= q < |o.rows|
      ensures ExtendsRow(o, q, h)
    {
      JoinedRowOrigin(h, p, keys, q);
    }
  }

  lemma HeaderMergeKeeps(h: Table, p: Table, keys: seq<string>)
    requires h.Shaped()
    ensures KeepsRows(Joined(h, p, keys), h)
  {
    var o := Joined(h, p, keys);
    forall i | 0 <= i < |h.rows|
      ensures StartsRow(o, h, i)
    {
      JoinedKeepsLeft(h, p, keys, i);
    }
  }

  // ------------------------------------------- the "1:m" validation of the card

  /** Two header rows built from the same input row agree on every id column. */
  lemma SameJoinKey(d: Table, ids: seq<string>, h: Table, keys: seq<string>,
                    r1: string, r2: string, i: int, k1: int, k2: int)
    requires h.columns == HeaderColumns(ids) && "role_id" !in ids && "role_score" !in ids
    requires forall m :: 0 <= m < |keys| ==> keys[m] in ids
    requires 0 <= k1 < |h.rows| && 0 <= k2 < |h.rows|
    requires h.rows[k1] == HeaderRow(d, ids, r1, i) && h.rows[k2] == HeaderRow(d, ids, r2, i)
    ensures KeyOf(h, k1, keys) == KeyOf(h, k2, keys)
  {
    HeaderRowCells(d, ids, r1, i);
    HeaderRowCells(d, ids, r2, i);
  }

  /** The join keys of a header are among its id columns. */
  lemma JoinKeysAmongIds(ids: seq<string>, pcols: seq<string>, m: int)
    requires 0 <= m < |JoinKeysOf(HeaderColumns(ids), pcols)|
    ensures JoinKeysOf(HeaderColumns(ids), pcols)[m] in ids
  {
    var keys := JoinKeysOf(HeaderColumns(ids), pcols);
    var c := keys[m];
    assert c in keys;
    JoinKeysOfIn(HeaderColumns(ids), pcols, c);
    JoinKeysAreIds(c);
    HeaderIdIff(ids, c);
  }

  /**
   * Two different scored roles of one input row give two header rows with
   * the same join-key values: the header is not unique on its join keys.
   */
  lemma HeaderKeysRepeat(d: Table, p: Table, b1: int, b2: int, i: int)
    requires RoleHeader(d).Some?
    requires 0 <= b1 < |UsedOf(d)| && 0 <= b2 < |UsedOf(d)| && UsedOf(d)[b1] != UsedOf(d)[b2]
    requires Scored(d, UsedOf(d)[b1], i) && Scored(d, UsedOf(d)[b2], i)
    ensures !UniqueOn(RoleHeader(d).value, JoinKeysOf(RoleHeader(d).value.columns, p.columns))
  {
    var h := RoleHeader(d).value;
    var ids := IdsOf(d);
    var used := UsedOf(d);
    RoleHeaderShape(d);
    IdsOfSpec(d);
    var k1 := HeaderRowAt(d, b1, i);
    var k2 := HeaderRowAt(d, b2, i);
    assert HeaderRow(d, ids, used[b1], i)[|ids|] == Str(used[b1]);
    assert HeaderRow(d, ids, used[b2], i)[|ids|] == Str(used[b2]);
    assert k1 != k2;
    var keys := JoinKeysOf(h.columns, p.columns);
    forall m | 0 <= m < |keys|
      ensures keys[m] in ids
    {
      JoinKeysAmongIds(ids, p.columns, m);
    }
    SameJoinKey(d, ids, h, keys, used[b1], used[b2], i, k1, k2);
  }

  /** The position of a scored header row. */
  lemma HeaderRowAt(d: Table, b: int, i: int) returns (k: nat)
    requires RoleHeader(d).Some?
    requires 0 <= b < |UsedOf(d)| && Scored(d, UsedOf(d)[b], i)
    ensures k < |RoleHeader(d).value.rows| && RoleHeader(d).value.rows[k] == HeaderRow(d, IdsOf(d), UsedOf(d)[b], i)
  {
    HeaderRowComplete(d, b, i);
    k :| 0 <= k < |RoleHeader(d).value.rows| && RoleHeader(d).value.rows[k] == HeaderRow(d, IdsOf(d), UsedOf(d)[b], i);
  }

  /** Two score columns of one scored row give two different used role ids scored on that row. */
  lemma TwoScoredRoles(scored: Table, c1: string, c2: string, i: int) returns (b1: nat, b2: nat)
    requires scored.Shaped()
    requires c1 != c2 && c1 in scored.columns && c2 in scored.columns
    requires IsScore(c1) && IsScore(c2) && !Contains(c1[6..], "score_") && !Contains(c2[6..], "score_")
    requires 0 <= i < |scored.rows| && Get(scored, i, c1) != Null && Get(scored, i, c2) != Null
    ensures var used := UsedOf(DedupeColumns(scored));
      && b1 < |used| && b2 < |used| && used[b1] != used[b2]
      && Scored(DedupeColumns(scored), used[b1], i) && Scored(DedupeColumns(scored), used[b2], i)
  {
    var d := DedupeColumns(scored);
    ScoreColumnUsed(scored, c1);
    ScoreColumnUsed(scored, c2);
    RoleIdRoundTrip(c1);
    RoleIdRoundTrip(c2);
    var used := UsedOf(d);
    b1 :| 0 <= b1 < |used| && used[b1] == c1[6..];
    b2 :| 0 <= b2 < |used| && used[b2] == c2[6..];
    DedupeGet(scored, i, c1);
    DedupeGet(scored, i, c2);
  }

  /**
   * The source as written fails whenever one scored row has two scored roles
   * and the tables share the fact id: the header repeats each row's join
   * keys once per role, so a merge validated "1:m" raises. The "m:m" card
   * succeeds on the same input.
   */
  lemma RoleCardAsWrittenRejects(scored: Table, pl: Table, c1: string, c2: string, i: int)
    requires scored.Shaped()
    requires c1 != c2 && c1 in scored.columns && c2 in scored.columns
    requires IsScore(c1) && IsScore(c2) && !Contains(c1[6..], "score_") && !Contains(c2[6..], "score_")
    requires 0 <= i < |scored.rows| && Get(scored, i, c1) != Null && Get(scored, i, c2) != Null
    requires FactKey in scored.columns && FactKey in pl.columns
    ensures RoleCardAsWritten(scored, pl) == Err(DuplicateKeys)
    ensures RoleCard(scored, pl).Ok?
  {
    var d := DedupeColumns(scored);
    var p := DedupeColumns(pl);
    var b1, b2 := TwoScoredRoles(scored, c1, c2, i);
    RoleHeaderNone(d);
    HeaderKeysRepeat(d, p, b1, b2, i);
    CardRejects(scored, pl);
  }

  /** A header that repeats join keys makes the "1:m" merge fail and the "m:m" one succeed. */
  lemma CardRejects(scored: Table, pl: Table)
    requires RoleHeader(DedupeColumns(scored)).Some?
    requires FactKey in scored.columns && FactKey in pl.columns
    requires var h := RoleHeader(DedupeColumns(scored)).value;
      !UniqueOn(h, JoinKeysOf(h.columns, DedupeColumns(pl).columns))
    ensures RoleCardAsWritten(scored, pl) == Err(DuplicateKeys)
    ensures RoleCard(scored, pl).Ok?
  {
    HeaderHasFactKey(scored, pl);
    CardOfRejects(BlocksOf(DedupeColumns(scored)), DedupeColumns(pl));
  }

  /** With the fact id on both sides, it is a join key. */
  lemma HeaderHasFactKey(scored: Table, pl: Table)
    requires RoleHeader(DedupeColumns(scored)).Some?
    requires FactKey in scored.columns && FactKey in pl.columns
    ensures FactKey in JoinKeysOf(RoleHeader(DedupeColumns(scored)).value.columns, DedupeColumns(pl).columns)
  {
    RoleHeaderShape(DedupeColumns(scored));
    JoinKeysSpec(scored, pl, FactKey);
  }

  lemma CardOfRejects(blocks: seq<Table>, p: Table)
    requires HeaderOf(blocks).Some?
    requires var h := HeaderOf(blocks).value;
      JoinKeysOf(h.columns, p.columns) != [] && !UniqueOn(h, JoinKeysOf(h.columns, p.columns))
    ensures CardOf(blocks, p, OneToMany) == Err(DuplicateKeys)
    ensures CardOf(blocks, p, ManyToMany).Ok?
  {
    var h := HeaderOf(blocks).value;
    var keys := JoinKeysOf(h.columns, p.columns);
    JoinKeysPresent(h, p);
    DuplicatesRejected(h, p, keys);
  }

  /** With both sides keyed and the left side's keys repeated, only the many-to-many merge succeeds. */
  lemma DuplicatesRejected(l: Table, r: Table, on: seq<string>)
    requires on != [] && FirstMissing(l, on) == None && FirstMissing(r, on) == None && !UniqueOn(l, on)
    ensures MergeLeft(l, r, on, OneToMany) == Err(DuplicateKeys)
    ensures MergeLeft(l, r, on, ManyToMany).Ok?
  {
  }

  /** A concrete instance: one player scored for two roles, one long percentile row. */
  lemma RoleCardAsWrittenExample()
    ensures var scored := Table([FactKey, "score_a", "score_b"], [[Str("p1"), Num(1.0), Num(2.0)]]);
      var pl := Table([FactKey, "kpi_name"], [[Str("p1"), Str("xa_p90")]]);
      RoleCardAsWritten(scored, pl) == Err(DuplicateKeys) && RoleCard(scored, pl).Ok?
  {
    var scored := Table([FactKey, "score_a", "score_b"], [[Str("p1"), Num(1.0), Num(2.0)]]);
    var pl := Table([FactKey, "kpi_name"], [[Str("p1"), Str("xa_p90")]]);
    assert "score_a"[6..] == "a" && "score_b"[6..] == "b";
    assert IsScore("score_a") && IsScore("score_b");
    assert Get(scored, 0, "score_a") == Num(1.0);
    assert Get(scored, 0, "score_b") == Num(2.0);
    RoleCardAsWrittenRejects(scored, pl, "score_a", "score_b", 0);
  }
}
