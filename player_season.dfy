/**
 * The player-season base table: the per-stat-type FBref tables of one
 * player season, each made unique on KEY, merged onto the "standard" table.
 * Entity columns come from "standard" only; every other table drops the
 * entity columns outside KEY, prefixes its non-key columns with its stat type
 * and is merged in with a 1:1 left merge on KEY.
 */
module PlayerSeason {
  import opened Seqs
  import opened Text
  import opened Tables
  import opened Merge

  /** The merge key: one player at one team in one league season. */
  const Key: seq<string> := ["league", "season", "team", "player", "nation", "born"]

  /** Columns every FBref player table repeats. */
  const Entity: seq<string> := ["nation", "pos", "age", "born", "90s"]

  /** No key name contains "_", so no prefixed or suffixed name is a key name. */
  lemma KeyNoUnderscore()
    ensures forall k :: k in Key ==> '_' !in k
  {
  }

  // ------------------------------------------------------- keep-first on KEY

  /** A row's key cells, the row being laid out by `cols`. */
  function RowKey(cols: seq<string>, row: seq<Cell>): seq<Cell> {
    seq(|Key|, k requires 0 <= k < |Key| => RowGet(cols, row, Key[k]))
  }

  /** The key of a row of a table with columns `cols`. */
  function KeyFn(cols: seq<string>): seq<Cell> -> seq<Cell> {
    row => RowKey(cols, row)
  }

  /** `_dedupe_on_key`: `drop_duplicates(subset=KEY, keep="first")`; a missing key column is a KeyError. */
  function DedupeOnKey(t: Table): Result<Table> {
    match FirstMissing(t, Key)
    case Some(k) => Err(MissingColumn(k))
    case None => Ok(Table(t.columns, KeepFirstBy(t.rows, KeyFn(t.columns))))
  }

  /** A table row's key through the row layout. */
  lemma KeyOfRow(t: Table, j: int)
    requires 0 <= j < |t.rows|
    ensures KeyOf(t, j, Key) == KeyFn(t.columns)(t.rows[j])
  {
  }

  /**
   * De-duplication succeeds exactly when every key column exists. It then
   * keeps the columns, never adds rows, leaves no two rows with one key,
   * keeps some row of every key, and each kept row is the first input row
   * with its key, in input order.
   */
  lemma DedupeOnKeySpec(t: Table)
    ensures DedupeOnKey(t).Ok? <==> forall k :: k in Key ==> k in t.columns
    ensures DedupeOnKey(t).Ok? ==>
      var d := DedupeOnKey(t).value;
      && d.columns == t.columns
      && (t.Shaped() ==> d.Shaped())
      && |d.rows| <= |t.rows|
      && UniqueOn(d, Key)
      && (forall i :: 0 <= i < |t.rows| ==> exists j :: 0 <= j < |d.rows| && KeyOf(d, j, Key) == KeyOf(t, i, Key))
      && (forall j :: 0 <= j < |d.rows| ==>
            var f := FirstIndex(t.rows, KeyFn(t.columns), KeyOf(d, j, Key));
            f < |t.rows| && d.rows[j] == t.rows[f])
      && (forall j1, j2 :: 0 <= j1 < j2 < |d.rows| ==>
            FirstIndex(t.rows, KeyFn(t.columns), KeyOf(d, j1, Key))
              < FirstIndex(t.rows, KeyFn(t.columns), KeyOf(d, j2, Key)))
  {
    if DedupeOnKey(t).Ok? {
      var d := DedupeOnKey(t).value;
      var key := KeyFn(t.columns);
      KeepFirstByFirst(t.rows, key);
      KeepFirstByDistinct(t.rows, key);
      KeepFirstByCovers(t.rows, key);
      KeepFirstByOrder(t.rows, key);
      forall j | 0 <= j < |d.rows|
        ensures KeyOf(d, j, Key) == key(d.rows[j])
      {
        KeyOfRow(d, j);
      }
      forall i | 0 <= i < |t.rows|
        ensures exists j :: 0 <= j < |d.rows| && KeyOf(d, j, Key) == KeyOf(t, i, Key)
      {
        KeyOfRow(t, i);
        var j := FirstIndex(d.rows, key, key(t.rows[i]));
        assert KeyOf(d, j, Key) == KeyOf(t, i, Key);
      }
    }
  }

  /**
   * The value merged in from column `c` of stat table `df` on a row whose key
   * is `key`: `c` in the first row of `df` with that key, null when no row has it.
   */
  function StatCell(df: Table, key: seq<Cell>, c: string): Cell {
    var f := FirstIndex(df.rows, KeyFn(df.columns), key);
    if f < |df.rows| then Get(df, f, c) else Null
  }

  /** A de-duplicated row reads, in every column, as the first input row with its key. */
  lemma DedupeGet(df: Table, j: int, c: string)
    requires DedupeOnKey(df).Ok? && 0 <= j < |DedupeOnKey(df).value.rows|
    ensures Get(DedupeOnKey(df).value, j, c) == StatCell(df, KeyOf(DedupeOnKey(df).value, j, Key), c)
  {
    DedupeOnKeySpec(df);
  }

  /** A key no de-duplicated row has is a key no input row has. */
  lemma DedupeMissing(df: Table, key: seq<Cell>, c: string)
    requires DedupeOnKey(df).Ok?
    requires forall j :: 0 <= j < |DedupeOnKey(df).value.rows| ==> KeyOf(DedupeOnKey(df).value, j, Key) != key
    ensures StatCell(df, key, c) == Null
  {
    DedupeOnKeySpec(df);
    forall j | 0 <= j < |df.rows|
      ensures KeyFn(df.columns)(df.rows[j]) != key
    {
      KeyOfRow(df, j);
    }
  }

  // ------------------------------------------------------ entity-column drop

  /** An entity column outside KEY (pos, age, 90s): dropped from non-standard tables. */
  predicate Dropped(c: string) {
    c in Entity && c !in Key
  }

  /** Whether column `c` survives the drop. */
  predicate Stays(c: string) {
    !Dropped(c)
  }

  /** Positions of the columns that `keep` accepts. */
  function StayPositions(cols: seq<string>, keep: string -> bool): (p: seq<nat>)
    ensures forall q :: 0 <= q < |p| ==> p[q] < |cols| && keep(cols[p[q]])
    ensures forall x :: 0 <= x < |cols| && keep(cols[x]) ==> x in p
    ensures forall a, b :: 0 <= a < b < |p| ==> p[a] < p[b]
  {
    Kept(seq(|cols|, x requires 0 <= x < |cols| => keep(cols[x])))
  }

  /** The table restricted to the columns `keep` accepts, in order. */
  function KeepWhere(t: Table, keep: string -> bool): Table {
    var stay := StayPositions(t.columns, keep);
    Table(seq(|stay|, q requires 0 <= q < |stay| => t.columns[stay[q]]),
      seq(|t.rows|, i requires 0 <= i < |t.rows| =>
        seq(|stay|, q requires 0 <= q < |stay| => At(t.rows[i], stay[q]))))
  }

  /** `df.drop(columns=[c for c in df.columns if c in ENTITY_COLS and c not in KEY])`. */
  function DropEntity(t: Table): Table {
    KeepWhere(t, Stays)
  }

  /** A column that is kept reads as before. */
  lemma KeepWhereGet(t: Table, keep: string -> bool, i: int, c: string)
    requires t.Shaped() && keep(c)
    ensures Get(KeepWhere(t, keep), i, c) == Get(t, i, c)
  {
    var r := KeepWhere(t, keep);
    var stay := StayPositions(t.columns, keep);
    if 0 <= i < |t.rows| && c in t.columns {
      var x := IndexOf(t.columns, c);
      var q :| 0 <= q < |stay| && stay[q] == x;
      assert r.columns[q] == c;
      var q0 := IndexOf(r.columns, c);
      assert q0 <= q;
      assert t.columns[stay[q0]] == c;
      assert q0 == q;
    } else if 0 <= i < |t.rows| {
      assert c !in r.columns;
    }
  }

  /**
   * Dropping removes exactly the entity columns outside KEY, keeps every
   * row, and every column that stays reads as before.
   */
  lemma DropEntitySpec(t: Table)
    requires t.Shaped()
    ensures var r := DropEntity(t);
      && r.Shaped()
      && |r.rows| == |t.rows|
      && (forall c :: c in r.columns <==> c in t.columns && !Dropped(c))
      && (forall i, c :: !Dropped(c) ==> Get(r, i, c) == Get(t, i, c))
  {
    var r := DropEntity(t);
    var stay := StayPositions(t.columns, Stays);
    forall c | c in t.columns && !Dropped(c)
      ensures c in r.columns
    {
      var x := IndexOf(t.columns, c);
      assert Stays(t.columns[x]);
      var q :| 0 <= q < |stay| && stay[q] == x;
      assert r.columns[q] == c;
    }
    forall i, c | !Dropped(c)
      ensures Get(r, i, c) == Get(t, i, c)
    {
      DropGet(t, i, c);
    }
  }

  lemma DropGet(t: Table, i: int, c: string)
    requires t.Shaped() && !Dropped(c)
    ensures Get(DropEntity(t), i, c) == Get(t, i, c)
  {
    KeepWhereGet(t, Stays, i, c);
  }

  // ------------------------------------------------------------ prefixing

  /** The name `_prefix_non_key_cols` gives column `c`. */
  function PrefixName(st: string, c: string): string {
    if c in Key then c else st + "__" + c
  }

  /** `_prefix_non_key_cols(df, st)`: rename every non-key column to `<st>__<c>`. */
  function Prefix(t: Table, st: string): Table {
    Table(seq(|t.columns|, p requires 0 <= p < |t.columns| => PrefixName(st, t.columns[p])), t.rows)
  }

  /** Builds the rename dictionary column by column, then renames. */
  method PrefixNonKeyCols(t: Table, st: string) returns (r: Table)
    ensures r == Prefix(t, st)
  {
    var rename: map<string, string> := map[];
    var i := 0;
    while i < |t.columns|
      invariant 0 <= i <= |t.columns|
      invariant forall c :: c in rename <==> c in t.columns[..i] && c !in Key
      invariant forall c :: c in rename ==> rename[c] == st + "__" + c
    {
      var c := t.columns[i];
      if c !in Key {
        rename := rename[c := st + "__" + c];
      }
      assert t.columns[..i + 1] == t.columns[..i] + [c];
      i := i + 1;
    }
    assert t.columns[..i] == t.columns;
    var cols := seq(|t.columns|, p requires 0 <= p < |t.columns| =>
      if t.columns[p] in rename then rename[t.columns[p]] else t.columns[p]);
    r := Table(cols, t.rows);
  }

  /** Prefixing never merges two names: distinct names stay distinct. */
  lemma PrefixNameInjective(st: string, a: string, b: string)
    requires PrefixName(st, a) == PrefixName(st, b)
    ensures a == b
  {
    PrefixedNotKey(st, a);
    PrefixedNotKey(st, b);
    var pre := st + "__";
    if a !in Key && b !in Key {
      assert a == (pre + a)[|pre|..];
    }
  }

  /** A prefixed name is never a key name. */
  lemma PrefixedNotKey(st: string, c: string)
    ensures st + "__" + c !in Key
  {
    KeyNoUnderscore();
    assert (st + "__" + c)[|st|] == '_';
  }

  /**
   * Prefixing keeps the rows and the key names, renames every other column to
   * `<st>__<c>`, and keeps distinct names distinct.
   */
  lemma PrefixSpec(t: Table, st: string)
    ensures var r := Prefix(t, st);
      && r.rows == t.rows
      && |r.columns| == |t.columns|
      && (forall p :: 0 <= p < |t.columns| && t.columns[p] in Key ==> r.columns[p] == t.columns[p])
      && (forall p :: 0 <= p < |t.columns| && t.columns[p] !in Key ==>
            StartsWith(r.columns[p], st + "__") && r.columns[p][|st| + 2..] == t.columns[p])
      && (Distinct(t.columns) ==> Distinct(r.columns))
  {
    var r := Prefix(t, st);
    forall p | 0 <= p < |t.columns| && t.columns[p] !in Key
      ensures StartsWith(r.columns[p], st + "__") && r.columns[p][|st| + 2..] == t.columns[p]
    {
      StartsWithConcat(st + "__", t.columns[p]);
    }
    forall a, b | 0 <= a < b < |r.columns| && r.columns[a] == r.columns[b]
      ensures t.columns[a] == t.columns[b]
    {
      PrefixNameInjective(st, t.columns[a], t.columns[b]);
    }
  }

  /** Key columns read the same after prefixing. */
  lemma PrefixGetKey(t: Table, st: string, i: int, k: string)
    requires k in Key
    ensures Get(Prefix(t, st), i, k) == Get(t, i, k)
  {
    var r := Prefix(t, st);
    if k in t.columns {
      var x := IndexOf(t.columns, k);
      assert r.columns[x] == k;
      forall p | 0 <= p < x
        ensures r.columns[p] != k
      {
        if r.columns[p] == k {
          PrefixNameInjective(st, t.columns[p], k);
        }
      }
      assert IndexOf(r.columns, k) == x;
    } else {
      forall p | 0 <= p < |r.columns|
        ensures r.columns[p] != k
      {
        if r.columns[p] == k {
          PrefixNameInjective(st, t.columns[p], k);
        }
      }
    }
  }

  /** A prefixed column reads as the column it renames. */
  lemma PrefixGetStat(t: Table, st: string, i: int, c: string)
    requires c !in Key
    ensures Get(Prefix(t, st), i, st + "__" + c) == Get(t, i, c)
  {
    var r := Prefix(t, st);
    var n := st + "__" + c;
    PrefixedNotKey(st, c);
    if c in t.columns {
      var x := IndexOf(t.columns, c);
      assert r.columns[x] == n;
      forall p | 0 <= p < x
        ensures r.columns[p] != n
      {
        if r.columns[p] == n {
          PrefixNameInjective(st, t.columns[p], c);
        }
      }
      assert IndexOf(r.columns, n) == x;
    } else {
      forall p | 0 <= p < |r.columns|
        ensures r.columns[p] != n
      {
        if r.columns[p] == n {
          PrefixNameInjective(st, t.columns[p], c);
        }
      }
    }
  }

  // ------------------------------------------------------------- the merge

  /** `KEY + [c for c in df2.columns if c.startswith(f"{st}__")]`. */
  function MergeCols(cols: seq<string>, st: string): seq<string> {
    Key + Filter(cols, (c: string) => StartsWith(c, st + "__"))
  }

  /**
   * One pass of the merge loop for stat table `st`: de-duplicate on KEY, drop
   * the entity columns outside KEY, prefix, select KEY and the prefixed
   * columns, and left-merge onto `base` validating "1:1".
   */
  function MergeStep(base: Table, st: string, df: Table): Result<Table> {
    match DedupeOnKey(df)
    case Err(e) => Err(e)
    case Ok(d) =>
      var p := Prefix(DropEntity(d), st);
      var cols := MergeCols(p.columns, st);
      match FirstMissing(p, cols)
      case Some(c) => Err(MissingColumn(c))
      case None => MergeLeft(base, Select(p, cols), Key, OneToOne)
  }

  /** The merge loop over the bundle's entries, skipping "standard". */
  function MergeAll(base: Table, entries: seq<(string, Table)>): Result<Table>
    decreases |entries|
  {
    if entries == [] then Ok(base)
    else if entries[0].0 == "standard" then MergeAll(base, entries[1..])
    else match MergeStep(base, entries[0].0, entries[0].1)
      case Err(e) => Err(e)
      case Ok(b) => MergeAll(b, entries[1..])
  }

  /** `bundle[name]` for a bundle given as its (name, table) entries in order. */
  function Lookup(bundle: seq<(string, Table)>, name: string): (r: Option<Table>)
    ensures r.Some? ==> (name, r.value) in bundle
    ensures r.None? ==> forall e :: e in bundle ==> e.0 != name
  {
    if bundle == [] then None
    else if bundle[0].0 == name then Some(bundle[0].1)
    else Lookup(bundle[1..], name)
  }

  /** `build_player_season_base(bundle)`. */
  function BuildBase(bundle: seq<(string, Table)>): Result<Table> {
    match Lookup(bundle, "standard")
    case None => Err(MissingTable("standard"))
    case Some(std) =>
      match DedupeOnKey(std)
      case Err(e) => Err(e)
      case Ok(base) => MergeAll(base, bundle)
  }

  /** `build_player_season_base`, with its loop of merges that reassigns `base`. */
  method BuildPlayerSeasonBase(bundle: seq<(string, Table)>) returns (r: Result<Table>)
    ensures r == BuildBase(bundle)
  {
    var std := Lookup(bundle, "standard");
    if std.None? {
      return Err(MissingTable("standard"));
    }
    var first := DedupeOnKey(std.value);
    if first.Err? {
      return Err(first.error);
    }
    r := MergeLoop(first.value, bundle);
  }

  /** The loop of merges of `build_player_season_base`; the first failing merge ends it. */
  method MergeLoop(first: Table, bundle: seq<(string, Table)>) returns (r: Result<Table>)
    ensures r == MergeAll(first, bundle)
  {
    r := Ok(first);
    assert bundle[0..] == bundle;
    var i := 0;
    while i < |bundle| && r.Ok?
      invariant 0 <= i <= |bundle|
      invariant r.Ok? ==> MergeAll(r.value, bundle[i..]) == MergeAll(first, bundle)
      invariant r.Err? ==> r == MergeAll(first, bundle)
    {
      var base := r.value;
      if bundle[i].0 != "standard" {
        r := MergeOne(base, bundle[i].0, bundle[i].1);
        MergeAllAt(first, base, bundle, i, r);
      } else {
        MergeAllSkip(first, base, bundle, i);
      }
      i := i + 1;
    }
    if r.Ok? {
      assert bundle[i..] == [];
    }
  }

  /** A merge pass at entry `i`: its error is the loop's, its result the next `base`. */
  lemma MergeAllAt(first: Table, base: Table, entries: seq<(string, Table)>, i: nat, merged: Result<Table>)
    requires i < |entries| && entries[i].0 != "standard"
    requires MergeAll(base, entries[i..]) == MergeAll(first, entries)
    requires merged == MergeStep(base, entries[i].0, entries[i].1)
    ensures merged.Err? ==> MergeAll(first, entries) == Err(merged.error)
    ensures merged.Ok? ==> MergeAll(merged.value, entries[i + 1..]) == MergeAll(first, entries)
  {
    assert entries[i..][0] == entries[i] && entries[i..][1..] == entries[i + 1..];
  }

  /** The "standard" entry is skipped. */
  lemma MergeAllSkip(first: Table, base: Table, entries: seq<(string, Table)>, i: nat)
    requires i < |entries| && entries[i].0 == "standard"
    requires MergeAll(base, entries[i..]) == MergeAll(first, entries)
    ensures MergeAll(base, entries[i + 1..]) == MergeAll(first, entries)
  {
    assert entries[i..][0] == entries[i] && entries[i..][1..] == entries[i + 1..];
  }

  /** One pass of the loop body of `build_player_season_base`. */
  method MergeOne(base: Table, st: string, df: Table) returns (r: Result<Table>)
    ensures r == MergeStep(base, st, df)
  {
    var df2 := DedupeOnKey(df);
    if df2.Err? {
      return Err(df2.error);
    }
    var p := PrefixNonKeyCols(DropEntity(df2.value), st);
    var cols := MergeCols(p.columns, st);
    var missing := FirstMissing(p, cols);
    if missing.Some? {
      return Err(MissingColumn(missing.value));
    }
    r := MergeLeft(base, Select(p, cols), Key, OneToOne);
  }

  // -------------------------------------------------------- merge properties

  /** A base table fit for the next merge: rectangular, with unique keys. */
  predicate Keyed(b: Table) {
    && b.Shaped()
    && (forall k :: k in Key ==> k in b.columns)
    && UniqueOn(b, Key)
  }

  /**
   * The table merged in for one stat type: it has the key columns, unique
   * keys, and every other column it has carries the `<st>__` prefix.
   */
  lemma MergeInputSpec(df: Table, st: string)
    requires df.Shaped() && DedupeOnKey(df).Ok?
    ensures var p := Prefix(DropEntity(DedupeOnKey(df).value), st);
      var cols := MergeCols(p.columns, st);
      && FirstMissing(p, cols).None?
      && Keyed(Select(p, cols))
      && (forall c :: c in cols && c !in Key ==> StartsWith(c, st + "__"))
  {
    DedupeOnKeySpec(df);
    var d := DedupeOnKey(df).value;
    var dr := DropEntity(d);
    DropEntitySpec(d);
    KeysPrefixed(dr, st);
    var p := Prefix(dr, st);
    var cols := MergeCols(p.columns, st);
    assert FirstMissing(p, cols).None?;
    SelectedKeys(d, st);
  }

  lemma KeysPrefixed(t: Table, st: string)
    requires forall k :: k in Key ==> k in t.columns
    ensures forall k :: k in Key ==> k in Prefix(t, st).columns
  {
    var p := Prefix(t, st);
    forall k | k in Key
      ensures k in p.columns
    {
      var x := IndexOf(t.columns, k);
      assert p.columns[x] == k;
    }
  }

  /** Selecting KEY and the prefixed columns keeps every key cell of the de-duplicated table. */
  lemma SelectedKeys(d: Table, st: string)
    requires d.Shaped() && forall k :: k in Key ==> k in d.columns
    ensures var p := Prefix(DropEntity(d), st);
      var cols := MergeCols(p.columns, st);
      && FirstMissing(p, cols).None?
      && var m := Select(p, cols);
        forall j :: 0 <= j < |m.rows| ==> KeyOf(m, j, Key) == KeyOf(d, j, Key)
  {
    var dr := DropEntity(d);
    DropEntitySpec(d);
    KeysPrefixed(dr, st);
    var p := Prefix(dr, st);
    var cols := MergeCols(p.columns, st);
    assert FirstMissing(p, cols).None?;
    var m := Select(p, cols);
    forall j | 0 <= j < |m.rows|
      ensures KeyOf(m, j, Key) == KeyOf(d, j, Key)
    {
      forall x | 0 <= x < |Key|
        ensures Get(m, j, Key[x]) == Get(d, j, Key[x])
      {
        SelectGet(p, cols, j, Key[x]);
        PrefixGetKey(dr, st, j, Key[x]);
      }
    }
  }

  /**
   * One merge pass succeeds exactly when the stat table has every key column
   * (it never fails validation). It keeps the base rows and their order, adds
   * only columns named `<st>__...`, never renames a base column beyond a
   * suffix, and leaves the key cells as they were.
   */
  lemma MergeStepSpec(base: Table, st: string, df: Table)
    requires Keyed(base) && df.Shaped()
    ensures MergeStep(base, st, df).Ok? <==> forall k :: k in Key ==> k in df.columns
    ensures MergeStep(base, st, df).Err? ==> MergeStep(base, st, df).error.MissingColumn?
    ensures MergeStep(base, st, df).Ok? ==>
      var b := MergeStep(base, st, df).value;
      && b.Shaped()
      && |b.rows| == |base.rows|
      && |b.columns| >= |base.columns|
      && (forall i :: 0 <= i < |base.rows| ==> b.rows[i][..|base.columns|] == base.rows[i])
      && (forall p :: 0 <= p < |base.columns| ==> StartsWith(b.columns[p], base.columns[p]))
      && (forall q :: |base.columns| <= q < |b.columns| ==> StartsWith(b.columns[q], st + "__"))
      && (forall k :: k in Key ==> k in b.columns)
      && (forall i, k :: k in Key ==> Get(b, i, k) == Get(base, i, k))
  {
    DedupeOnKeySpec(df);
    if DedupeOnKey(df).Ok? {
      MergeInputSpec(df, st);
      var p := Prefix(DropEntity(DedupeOnKey(df).value), st);
      var cols := MergeCols(p.columns, st);
      var m := Select(p, cols);
      assert FirstMissing(base, Key).None?;
      assert FirstMissing(m, Key).None?;
      assert MergeStep(base, st, df) == Ok(Joined(base, m, Key));
      MergeKeepsLeftRows(base, m, Key, OneToOne);
      MergedNames(base, m, Key);
      KeyNoUnderscore();
      var b := Joined(base, m, Key);
      var rest := RestPositions(m, Key);
      forall q | |base.columns| <= q < |b.columns|
        ensures StartsWith(b.columns[q], st + "__")
      {
        var c := m.columns[rest[q - |base.columns|]];
        assert c in cols && c !in Key;
        StartsWithTrans(b.columns[q], c, st + "__");
      }
      forall i, k | k in Key
        ensures Get(b, i, k) == Get(base, i, k)
      {
        MergeKeyCells(base, m, Key, OneToOne, i, k);
      }
      forall k | k in Key
        ensures k in b.columns
      {
        assert b.columns[IndexOf(base.columns, k)] == k;
      }
    }
  }

  /**
   * `b` extends the de-duplicated standard table `d`: the same number of
   * rows, each starting with the cells of `d`'s row, `d`'s column names kept
   * or only suffixed, and the same key cells.
   */
  ghost predicate Grows(d: Table, b: Table) {
    && b.Shaped()
    && |b.rows| == |d.rows|
    && |b.columns| >= |d.columns|
    && (forall i :: 0 <= i < |d.rows| ==> b.rows[i][..|d.columns|] == d.rows[i])
    && (forall p :: 0 <= p < |d.columns| ==> StartsWith(b.columns[p], d.columns[p]))
    && (forall k :: k in Key ==> k in b.columns)
    && (forall i, k :: k in Key ==> Get(b, i, k) == Get(d, i, k))
  }

  lemma GrowsFromSelf(d: Table)
    requires Keyed(d)
    ensures Grows(d, d)
  {
    forall p | 0 <= p < |d.columns|
      ensures StartsWith(d.columns[p], d.columns[p])
    {
      assert d.columns[p][..|d.columns[p]|] == d.columns[p];
    }
  }

  /** A table that extends a keyed table has its unique keys. */
  lemma GrowsKeyed(d: Table, b: Table)
    requires Keyed(d) && Grows(d, b)
    ensures Keyed(b)
  {
    forall i | 0 <= i < |b.rows|
      ensures KeyOf(b, i, Key) == KeyOf(d, i, Key)
    {
    }
  }

  lemma GrowsStep(d: Table, b: Table, st: string, df: Table)
    requires Keyed(d) && Grows(d, b) && df.Shaped()
    requires MergeStep(b, st, df).Ok?
    ensures Grows(d, MergeStep(b, st, df).value)
  {
    GrowsKeyed(d, b);
    MergeStepSpec(b, st, df);
    var b2 := MergeStep(b, st, df).value;
    assert Grows(b, b2);
    GrowsTrans(d, b, b2);
  }

  lemma GrowsTrans(d: Table, b: Table, b2: Table)
    requires Grows(d, b) && Grows(b, b2)
    ensures Grows(d, b2)
  {
    forall i | 0 <= i < |d.rows|
      ensures b2.rows[i][..|d.columns|] == d.rows[i]
    {
      assert b2.rows[i][..|d.columns|] == b2.rows[i][..|b.columns|][..|d.columns|];
    }
    forall p | 0 <= p < |d.columns|
      ensures StartsWith(b2.columns[p], d.columns[p])
    {
      StartsWithTrans(b2.columns[p], b.columns[p], d.columns[p]);
    }
    forall i, k | k in Key
      ensures Get(b2, i, k) == Get(d, i, k)
    {
      assert Get(b2, i, k) == Get(b, i, k);
    }
  }

  // ---------------------------------------------------------- merged values

  /** A column of stat table `df` that the merge brings in: not a key, not a dropped entity column. */
  predicate Brought(df: Table, c: string) {
    c in df.columns && !Dropped(c) && c !in Key
  }

  /**
   * Column `q` of `b` is stat column `c` of table `st`: it is named
   * `<st>__<c>` (with a clash suffix at most), and each row holds `c` from the
   * first row of `df` with that row's key, or null when no row of `df` has it.
   */
  ghost predicate ColumnFrom(b: Table, q: int, st: string, df: Table, c: string) {
    && 0 <= q < |b.columns|
    && StartsWith(b.columns[q], st + "__" + c)
    && forall i :: 0 <= i < |b.rows| ==> At(b.rows[i], q) == StatCell(df, KeyOf(b, i, Key), c)
  }

  /** `b` holds every column that stat table `st` brings in. */
  ghost predicate Carries(b: Table, st: string, df: Table) {
    forall c :: Brought(df, c) ==> exists q :: ColumnFrom(b, q, st, df, c)
  }

  /**
   * Column `st__c` of the selected prefixed stat table holds, on each row,
   * stat column `c` of the first `df` row with that row's key.
   */
  lemma SelectedCell(df: Table, st: string, d: Table, p: Table, m: Table, j: int, y: int, c: string)
    requires df.Shaped() && DedupeOnKey(df) == Ok(d) && !Dropped(c) && c !in Key
    requires p == Prefix(DropEntity(d), st) && FirstMissing(p, MergeCols(p.columns, st)).None?
    requires m == Select(p, MergeCols(p.columns, st))
    requires 0 <= j < |m.rows| && 0 <= y < |m.columns| && m.columns[y] == st + "__" + c
    ensures At(m.rows[j], y) == StatCell(df, KeyOf(m, j, Key), c)
  {
    DedupeOnKeySpec(df);
    SelectedKeys(d, st);
    assert At(m.rows[j], y) == Get(p, j, st + "__" + c);
    PrefixGetStat(DropEntity(d), st, j, c);
    DropGet(d, j, c);
    DedupeGet(df, j, c);
  }

  /** A key no row of the selected prefixed stat table carries has no stat row either. */
  lemma SelectedMissing(df: Table, st: string, d: Table, p: Table, m: Table, key: seq<Cell>, c: string)
    requires df.Shaped() && DedupeOnKey(df) == Ok(d)
    requires p == Prefix(DropEntity(d), st) && FirstMissing(p, MergeCols(p.columns, st)).None?
    requires m == Select(p, MergeCols(p.columns, st))
    requires forall j :: 0 <= j < |m.rows| ==> KeyOf(m, j, Key) != key
    ensures StatCell(df, key, c) == Null
  {
    DedupeOnKeySpec(df);
    SelectedKeys(d, st);
    DedupeMissing(df, key, c);
  }

  /**
   * The left merge `b` of `m`, the selected prefixed stat table, onto
   * `base`: column `q`, added for selected non-key column `k`, holds for row
   * `i` stat column `c`'s value on row `i`'s key.
   */
  lemma MergedCell(base: Table, st: string, df: Table, d: Table, p: Table, m: Table, b: Table, i: int, k: nat, q: int, c: string)
    requires Keyed(base) && df.Shaped() && DedupeOnKey(df) == Ok(d)
    requires p == Prefix(DropEntity(d), st) && FirstMissing(p, MergeCols(p.columns, st)).None?
    requires m == Select(p, MergeCols(p.columns, st)) && UniqueOn(m, Key)
    requires b == Joined(base, m, Key) && 0 <= i < |base.rows| && 0 <= i < |b.rows|
    requires k < |RestPositions(m, Key)| && q == |base.columns| + k && !Dropped(c) && c !in Key
    requires m.columns[RestPositions(m, Key)[k]] == st + "__" + c
    requires KeyOf(b, i, Key) == KeyOf(base, i, Key)
    ensures At(b.rows[i], q) == StatCell(df, KeyOf(b, i, Key), c)
  {
    JoinedRightCell(base, m, Key, b, i, k, q);
    MatchedCell(df, st, d, p, m, KeyOf(base, i, Key), At(b.rows[i], q), RestPositions(m, Key)[k], c);
  }

  /**
   * A cell taken from selected column `st__c` of the row with key `key`, or
   * null when no selected row has that key, is stat column `c` on `key`.
   */
  lemma MatchedCell(df: Table, st: string, d: Table, p: Table, m: Table, key: seq<Cell>, cell: Cell, y: int, c: string)
    requires df.Shaped() && DedupeOnKey(df) == Ok(d) && !Dropped(c) && c !in Key
    requires p == Prefix(DropEntity(d), st) && FirstMissing(p, MergeCols(p.columns, st)).None?
    requires m == Select(p, MergeCols(p.columns, st))
    requires 0 <= y < |m.columns| && m.columns[y] == st + "__" + c
    requires || (exists j :: 0 <= j < |m.rows| && KeyOf(m, j, Key) == key && cell == At(m.rows[j], y))
             || ((forall j :: 0 <= j < |m.rows| ==> KeyOf(m, j, Key) != key) && cell == Null)
    ensures cell == StatCell(df, key, c)
  {
    if j :| 0 <= j < |m.rows| && KeyOf(m, j, Key) == key && cell == At(m.rows[j], y) {
      SelectedCell(df, st, d, p, m, j, y, c);
    } else {
      SelectedMissing(df, st, d, p, m, key, c);
    }
  }

  /** Every non-key column the de-duplicated table keeps after the drop is one the merge brings in. */
  lemma DroppedBrought(df: Table, d: Table)
    requires df.Shaped() && DedupeOnKey(df) == Ok(d)
    ensures forall c :: c in DropEntity(d).columns && c !in Key ==> Brought(df, c)
  {
    DedupeOnKeySpec(df);
    DropEntitySpec(d);
  }

  /** A non-key merge column of a prefixed table is `st__c` for a non-key column `c` of the table. */
  lemma MergeColsFrom(t: Table, st: string, n: string)
    requires n in MergeCols(Prefix(t, st).columns, st) && n !in Key
    ensures exists c :: c in t.columns && c !in Key && n == st + "__" + c
  {
    var pc := Prefix(t, st).columns;
    assert n in pc;
    var x :| 0 <= x < |pc| && pc[x] == n;
    assert t.columns[x] !in Key && t.columns[x] in t.columns;
  }

  /** Every non-key column of the selected prefixed stat table is `st__c` for a stat column `c`. */
  lemma SelectedNamesSound(df: Table, st: string, d: Table, p: Table, m: Table)
    requires df.Shaped() && DedupeOnKey(df) == Ok(d)
    requires p == Prefix(DropEntity(d), st) && FirstMissing(p, MergeCols(p.columns, st)).None?
    requires m == Select(p, MergeCols(p.columns, st))
    ensures var rest := RestPositions(m, Key);
      forall q :: 0 <= q < |rest| ==> exists c :: Brought(df, c) && m.columns[rest[q]] == st + "__" + c
  {
    DroppedBrought(df, d);
    forall q | 0 <= q < |RestPositions(m, Key)|
      ensures exists c :: Brought(df, c) && m.columns[RestPositions(m, Key)[q]] == st + "__" + c
    {
      var n := m.columns[RestPositions(m, Key)[q]];
      MergeColsFrom(DropEntity(d), st, n);
    }
  }

  /** A non-key column `c` of a table gives merge column `st__c` after prefixing. */
  lemma MergeColsHas(t: Table, st: string, c: string)
    requires c in t.columns && c !in Key
    ensures st + "__" + c in MergeCols(Prefix(t, st).columns, st)
  {
    var x := IndexOf(t.columns, c);
    assert Prefix(t, st).columns[x] == st + "__" + c;
    StartsWithConcat(st + "__", c);
  }

  /** Every stat column `c` the merge brings in is a non-key column `st__c` of the selected table. */
  lemma SelectedNamesComplete(df: Table, st: string, d: Table, p: Table, m: Table, c: string)
    requires df.Shaped() && DedupeOnKey(df) == Ok(d) && Brought(df, c)
    requires p == Prefix(DropEntity(d), st) && FirstMissing(p, MergeCols(p.columns, st)).None?
    requires m == Select(p, MergeCols(p.columns, st))
    ensures var rest := RestPositions(m, Key);
      exists q :: 0 <= q < |rest| && m.columns[rest[q]] == st + "__" + c
  {
    BroughtKept(df, d, c);
    MergeColsHas(DropEntity(d), st, c);
    var n := st + "__" + c;
    PrefixedNotKey(st, c);
    assert m.columns == MergeCols(p.columns, st);
    var y :| 0 <= y < |m.columns| && m.columns[y] == n;
    RestHas(m, Key, y);
  }

  /** A column the merge brings in survives the de-duplication and the drop. */
  lemma BroughtKept(df: Table, d: Table, c: string)
    requires df.Shaped() && DedupeOnKey(df) == Ok(d) && Brought(df, c)
    ensures c in DropEntity(d).columns
  {
    DedupeOnKeySpec(df);
    DropEntitySpec(d);
  }

  /** Column `q` of `b` is one stat column of `df` brought in under table `st`. */
  ghost predicate FromStat(b: Table, q: int, st: string, df: Table) {
    exists c :: Brought(df, c) && ColumnFrom(b, q, st, df, c)
  }

  /**
   * One merge pass brings in every stat column of `df` under its prefixed
   * name, each cell the value of the first `df` row with the base row's key
   * (null without one), and every column it adds is such a column.
   */
  lemma MergeStepValues(base: Table, st: string, df: Table)
    requires Keyed(base) && df.Shaped() && MergeStep(base, st, df).Ok?
    ensures var b := MergeStep(base, st, df).value;
      && Carries(b, st, df)
      && forall q :: |base.columns| <= q < |b.columns| ==> FromStat(b, q, st, df)
  {
    MergeStepJoined(base, st, df);
    MergeStepKeys(base, st, df);
    var d := DedupeOnKey(df).value;
    var p := Prefix(DropEntity(d), st);
    var m := Select(p, MergeCols(p.columns, st));
    JoinedValues(base, st, df, d, p, m, MergeStep(base, st, df).value);
  }

  /** A merge pass that succeeds is the left merge of the selected prefixed stat table. */
  lemma MergeStepJoined(base: Table, st: string, df: Table)
    requires Keyed(base) && df.Shaped() && MergeStep(base, st, df).Ok?
    ensures DedupeOnKey(df).Ok?
    ensures var p := Prefix(DropEntity(DedupeOnKey(df).value), st);
      && FirstMissing(p, MergeCols(p.columns, st)).None?
      && var m := Select(p, MergeCols(p.columns, st));
      && UniqueOn(m, Key)
      && MergeStep(base, st, df).value == Joined(base, m, Key)
      && |MergeStep(base, st, df).value.rows| == |base.rows|
  {
    MergeStepSpec(base, st, df);
    DedupeOnKeySpec(df);
    MergeInputSpec(df, st);
  }

  /** A merge pass keeps every base row's key cells. */
  lemma MergeStepKeys(base: Table, st: string, df: Table)
    requires Keyed(base) && df.Shaped() && MergeStep(base, st, df).Ok?
    ensures var b := MergeStep(base, st, df).value;
      forall i :: 0 <= i < |b.rows| ==> KeyOf(b, i, Key) == KeyOf(base, i, Key)
  {
    MergeStepSpec(base, st, df);
    var b := MergeStep(base, st, df).value;
    forall i | 0 <= i < |b.rows|
      ensures KeyOf(b, i, Key) == KeyOf(base, i, Key)
    {
      assert forall x :: 0 <= x < |Key| ==> Get(b, i, Key[x]) == Get(base, i, Key[x]);
    }
  }

  /** The columns a merge pass adds are exactly the stat columns, filled from `df`. */
  lemma JoinedValues(base: Table, st: string, df: Table, d: Table, p: Table, m: Table, b: Table)
    requires Keyed(base) && df.Shaped() && DedupeOnKey(df) == Ok(d)
    requires p == Prefix(DropEntity(d), st) && FirstMissing(p, MergeCols(p.columns, st)).None?
    requires m == Select(p, MergeCols(p.columns, st)) && UniqueOn(m, Key)
    requires b == Joined(base, m, Key) && |b.rows| == |base.rows|
    requires forall i :: 0 <= i < |b.rows| ==> KeyOf(b, i, Key) == KeyOf(base, i, Key)
    ensures Carries(b, st, df)
    ensures forall q :: |base.columns| <= q < |b.columns| ==> FromStat(b, q, st, df)
  {
    forall q | |base.columns| <= q < |b.columns|
      ensures FromStat(b, q, st, df)
    {
      AddedFromStat(base, st, df, d, p, m, b, q);
    }
    forall c | Brought(df, c)
      ensures exists q :: ColumnFrom(b, q, st, df, c)
    {
      StatAdded(base, st, df, d, p, m, b, c);
    }
  }

  /** Each stat column is among the columns a merge pass adds, filled from `df`. */
  lemma StatAdded(base: Table, st: string, df: Table, d: Table, p: Table, m: Table, b: Table, c: string)
    requires Keyed(base) && df.Shaped() && DedupeOnKey(df) == Ok(d) && Brought(df, c)
    requires p == Prefix(DropEntity(d), st) && FirstMissing(p, MergeCols(p.columns, st)).None?
    requires m == Select(p, MergeCols(p.columns, st)) && UniqueOn(m, Key)
    requires b == Joined(base, m, Key) && |b.rows| == |base.rows|
    requires forall i :: 0 <= i < |b.rows| ==> KeyOf(b, i, Key) == KeyOf(base, i, Key)
    ensures exists q :: ColumnFrom(b, q, st, df, c)
  {
    SelectedNamesComplete(df, st, d, p, m, c);
    var rest := RestPositions(m, Key);
    var q :| 0 <= q < |rest| && m.columns[rest[q]] == st + "__" + c;
    AddedColumn(base, st, df, d, p, m, b, q, |base.columns| + q, c);
  }

  /** Each column a merge pass adds is some stat column, filled from `df`. */
  lemma AddedFromStat(base: Table, st: string, df: Table, d: Table, p: Table, m: Table, b: Table, q: int)
    requires Keyed(base) && df.Shaped() && DedupeOnKey(df) == Ok(d)
    requires p == Prefix(DropEntity(d), st) && FirstMissing(p, MergeCols(p.columns, st)).None?
    requires m == Select(p, MergeCols(p.columns, st)) && UniqueOn(m, Key)
    requires b == Joined(base, m, Key) && |b.rows| == |base.rows|
    requires forall i :: 0 <= i < |b.rows| ==> KeyOf(b, i, Key) == KeyOf(base, i, Key)
    requires |base.columns| <= q < |b.columns|
    ensures FromStat(b, q, st, df)
  {
    var rest := RestPositions(m, Key);
    MergedNames(base, m, Key);
    assert |b.columns| == |base.columns| + |rest|;
    var k := q - |base.columns|;
    assert 0 <= k < |rest|;
    SelectedNamesSound(df, st, d, p, m);
    var c :| Brought(df, c) && m.columns[rest[k]] == st + "__" + c;
    AddedColumn(base, st, df, d, p, m, b, k, q, c);
  }

  /** Merged column `q`, from selected non-key column `k`, is `st__c`, filled from `df`. */
  lemma AddedColumn(base: Table, st: string, df: Table, d: Table, p: Table, m: Table, b: Table, k: nat, q: int, c: string)
    requires Keyed(base) && df.Shaped() && DedupeOnKey(df) == Ok(d) && Brought(df, c)
    requires p == Prefix(DropEntity(d), st) && FirstMissing(p, MergeCols(p.columns, st)).None?
    requires m == Select(p, MergeCols(p.columns, st)) && UniqueOn(m, Key)
    requires b == Joined(base, m, Key) && |b.rows| == |base.rows|
    requires k < |RestPositions(m, Key)| && m.columns[RestPositions(m, Key)[k]] == st + "__" + c
    requires q == |base.columns| + k
    requires forall i :: 0 <= i < |b.rows| ==> KeyOf(b, i, Key) == KeyOf(base, i, Key)
    ensures ColumnFrom(b, q, st, df, c)
  {
    MergedNames(base, m, Key);
    forall i | 0 <= i < |b.rows|
      ensures At(b.rows[i], q) == StatCell(df, KeyOf(b, i, Key), c)
    {
      MergedCell(base, st, df, d, p, m, b, i, k, q, c);
    }
  }

  /** A table that extends `b` still holds the stat columns `b` holds. */
  lemma CarriesGrows(b: Table, b2: Table, st: string, df: Table)
    requires b.Shaped() && Carries(b, st, df) && Grows(b, b2)
    ensures Carries(b2, st, df)
  {
    forall c | Brought(df, c)
      ensures exists q :: ColumnFrom(b2, q, st, df, c)
    {
      var q :| ColumnFrom(b, q, st, df, c);
      StartsWithTrans(b2.columns[q], b.columns[q], st + "__" + c);
      forall i | 0 <= i < |b2.rows|
        ensures At(b2.rows[i], q) == StatCell(df, KeyOf(b2, i, Key), c)
      {
        assert KeyOf(b2, i, Key) == KeyOf(b, i, Key);
        assert b2.rows[i][..|b.columns|][q] == b.rows[i][q];
      }
      assert ColumnFrom(b2, q, st, df, c);
    }
  }

  /** A bundle entry the merge loop accepts: the standard table, or a table with every key column. */
  predicate Mergeable(e: (string, Table)) {
    e.0 == "standard" || forall k :: k in Key ==> k in e.1.columns
  }

  lemma MergeableSplit(entries: seq<(string, Table)>)
    requires entries != []
    ensures (forall e :: e in entries ==> Mergeable(e)) <==>
      Mergeable(entries[0]) && forall e :: e in entries[1..] ==> Mergeable(e)
  {
    assert entries == [entries[0]] + entries[1..];
  }

  /**
   * The merge loop succeeds exactly when every non-standard table has every
   * key column, fails only on a missing column, and its result still extends
   * the de-duplicated standard table (`MergeAllValues` says which values it
   * brings in).
   */
  lemma {:induction false} MergeAllSpec(d: Table, base: Table, entries: seq<(string, Table)>)
    requires Keyed(d) && Grows(d, base)
    requires forall e :: e in entries ==> e.1.Shaped()
    ensures MergeAll(base, entries).Ok? <==> forall e :: e in entries ==> Mergeable(e)
    ensures MergeAll(base, entries).Err? ==> MergeAll(base, entries).error.MissingColumn?
    ensures MergeAll(base, entries).Ok? ==> Grows(d, MergeAll(base, entries).value)
    decreases |entries|
  {
    if entries != [] {
      var e := entries[0];
      var rest := entries[1..];
      MergeableSplit(entries);
      if e.0 == "standard" {
        MergeAllSpec(d, base, rest);
      } else {
        GrowsKeyed(d, base);
        MergeStepSpec(base, e.0, e.1);
        if MergeStep(base, e.0, e.1).Ok? {
          var b := MergeStep(base, e.0, e.1).value;
          GrowsStep(d, base, e.0, e.1);
          MergeAllSpec(d, b, rest);
        }
      }
    }
  }

  /**
   * After the merge loop, every non-standard table's stat columns are in the
   * result, each row holding the value of that table's first row with the
   * row's key, or null when the table has no such row.
   */
  lemma {:induction false} MergeAllValues(base: Table, entries: seq<(string, Table)>)
    requires Keyed(base) && forall e :: e in entries ==> e.1.Shaped()
    requires MergeAll(base, entries).Ok?
    ensures forall e :: e in entries && e.0 != "standard" ==> Carries(MergeAll(base, entries).value, e.0, e.1)
    decreases |entries|
  {
    if entries != [] {
      var e := entries[0];
      var rest := entries[1..];
      assert forall x :: x in entries <==> x == e || x in rest;
      if e.0 == "standard" {
        MergeAllValues(base, rest);
      } else {
        var b := MergeStep(base, e.0, e.1).value;
        MergeStepSpec(base, e.0, e.1);
        assert Grows(base, b);
        GrowsKeyed(base, b);
        MergeStepValues(base, e.0, e.1);
        GrowsFromSelf(b);
        MergeAllSpec(b, b, rest);
        CarriesGrows(b, MergeAll(b, rest).value, e.0, e.1);
        MergeAllValues(b, rest);
      }
    }
  }

  /**
   * `build_player_season_base` succeeds exactly when there is a "standard"
   * table and every table has every key column; its only errors are the
   * missing table and a missing column, never a failed "1:1" validation.
   * The result has exactly the de-duplicated standard rows, in order, each
   * extended to the right; the standard columns are never prefixed, and the
   * keys stay unique.
   */
  lemma BuildBaseSpec(bundle: seq<(string, Table)>)
    requires forall e :: e in bundle ==> e.1.Shaped()
    ensures BuildBase(bundle).Ok? <==>
      && Lookup(bundle, "standard").Some?
      && (forall k :: k in Key ==> k in Lookup(bundle, "standard").value.columns)
      && (forall e :: e in bundle && e.0 != "standard" ==> forall k :: k in Key ==> k in e.1.columns)
    ensures BuildBase(bundle).Err? ==>
      BuildBase(bundle).error.MissingTable? || BuildBase(bundle).error.MissingColumn?
    ensures BuildBase(bundle).Ok? ==>
      var d := DedupeOnKey(Lookup(bundle, "standard").value).value;
      Grows(d, BuildBase(bundle).value) && UniqueOn(BuildBase(bundle).value, Key)
    ensures BuildBase(bundle).Ok? ==>
      forall e :: e in bundle && e.0 != "standard" ==> Carries(BuildBase(bundle).value, e.0, e.1)
  {
    var std := Lookup(bundle, "standard");
    if std.Some? {
      DedupeOnKeySpec(std.value);
      if DedupeOnKey(std.value).Ok? {
        var d := DedupeOnKey(std.value).value;
        GrowsFromSelf(d);
        MergeAllSpec(d, d, bundle);
        assert (forall e :: e in bundle ==> Mergeable(e)) <==>
          forall e :: e in bundle && e.0 != "standard" ==> forall k :: k in Key ==> k in e.1.columns;
        if MergeAll(d, bundle).Ok? {
          GrowsKeyed(d, MergeAll(d, bundle).value);
          MergeAllValues(d, bundle);
        }
      }
    }
  }
}
