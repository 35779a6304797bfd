/**
 * A data frame as the pipeline sees it: an ordered list of column names and
 * rectangular rows of cells. A missing value (NaN, None, pd.NA) is `Null`;
 * numbers are unbounded reals; text is `Str`. Looking up a column by name
 * finds its first occurrence; a name that is absent reads as `Null`.
 */
module Tables {
  import opened Seqs

  datatype Option<T> = None | Some(value: T)

  datatype Cell = Null | Num(x: real) | Str(s: string)

  /** The exceptions the pipeline raises, as values. */
  datatype Error =
    | MissingColumn(column: string)          // KeyError on df[column]
    | UnknownScope(scope: string, supported: seq<string>)
    | NoGroupKeys                            // groupby([]) raises ValueError
    | UnknownRole(role: string)               // KeyError on a per-role table
    | MissingTable(name: string)             // KeyError on bundle[name]
    | DuplicateKeys                          // merge(validate=...) raises MergeError
    | NoJoinKeys                             // merge with no common key column
    | NonFinite                              // cosine_distances raises ValueError on NaN input

  datatype Result<T> = Ok(value: T) | Err(error: Error)

  datatype Table = Table(columns: seq<string>, rows: seq<seq<Cell>>) {
    /** Every row has one cell per column. */
    predicate Shaped() {
      forall i :: 0 <= i < |rows| ==> |rows[i]| == |columns|
    }
  }

  /** Position of the first column named `c`. */
  function IndexOf(cols: seq<string>, c: string): (k: nat)
    requires c in cols
    ensures k < |cols| && cols[k] == c
    ensures forall j :: 0 <= j < k ==> cols[j] != c
  {
    if cols[0] == c then 0 else 1 + IndexOf(cols[1..], c)
  }

  lemma IndexOfAppend(cols: seq<string>, extra: seq<string>, c: string)
    requires c in cols
    ensures c in cols + extra && IndexOf(cols + extra, c) == IndexOf(cols, c)
  {
    var k := IndexOf(cols, c);
    assert (cols + extra)[k] == c;
    assert forall j :: 0 <= j < k ==> (cols + extra)[j] == cols[j];
    var m := IndexOf(cols + extra, c);
    assert m <= k;
  }

  function At(row: seq<Cell>, k: int): Cell {
    if 0 <= k < |row| then row[k] else Null
  }

  /** `row[c]` for a row laid out by `cols`. */
  function RowGet(cols: seq<string>, row: seq<Cell>, c: string): Cell {
    if c in cols then At(row, IndexOf(cols, c)) else Null
  }

  /** The cell of row `i` in column `c`. */
  function Get(t: Table, i: int, c: string): Cell {
    if 0 <= i < |t.rows| then RowGet(t.columns, t.rows[i], c) else Null
  }

  /** Numeric reading of a cell: text coerces to null (`pd.to_numeric(errors="coerce")`). */
  function AsReal(c: Cell): Option<real> {
    if c.Num? then Some(c.x) else None
  }

  /** `value >= threshold` on a cell: false for null, and for text, where pandas raises TypeError. */
  predicate AtLeast(c: Cell, threshold: real) {
    c.Num? && c.x >= threshold
  }

  /** `out[c] = cells`: overwrite in place, or append a new last column. */
  function SetColumn(t: Table, c: string, cells: seq<Cell>): (r: Table)
    requires t.Shaped() && |cells| == |t.rows|
    ensures r.Shaped() && |r.rows| == |t.rows|
    ensures r.columns == if c in t.columns then t.columns else t.columns + [c]
    ensures forall i :: 0 <= i < |t.rows| ==> Get(r, i, c) == cells[i]
    ensures forall i, d :: 0 <= i < |t.rows| && d != c ==> Get(r, i, d) == Get(t, i, d)
  {
    if c in t.columns then
      var k := IndexOf(t.columns, c);
      var r := Table(t.columns, seq(|t.rows|, i requires 0 <= i < |t.rows| => t.rows[i][k := cells[i]]));
      r
    else
      var r := Table(t.columns + [c], seq(|t.rows|, i requires 0 <= i < |t.rows| => t.rows[i] + [cells[i]]));
      forall d | d in t.columns
        ensures IndexOf(r.columns, d) == IndexOf(t.columns, d)
      {
        IndexOfAppend(t.columns, [c], d);
      }
      assert IndexOf(r.columns, c) == |t.columns|;
      r
  }

  /** `[c for c in cols if c in df.columns]`: the named columns the table has, in the given order. */
  function PresentColumns(cols: seq<string>, columns: seq<string>): (r: seq<string>)
    ensures |r| <= |cols|
    ensures forall c :: c in r <==> c in cols && c in columns
  {
    if cols == [] then []
    else
      var rest := PresentColumns(cols[1..], columns);
      if cols[0] in columns then [cols[0]] + rest else rest
  }

  /** Filtering keeps the relative order of the names kept. */
  lemma {:induction false} PresentOrder(cols: seq<string>, columns: seq<string>, x: string, y: string)
    requires x in columns && y in columns
    requires FirstIndex(cols, Id, x) < FirstIndex(cols, Id, y)
    ensures FirstIndex(PresentColumns(cols, columns), Id, x) < FirstIndex(PresentColumns(cols, columns), Id, y)
    decreases |cols|
  {
    var rest := PresentColumns(cols[1..], columns);
    assert cols == [cols[0]] + cols[1..];
    FirstIndexCons(cols[0], cols[1..], Id, x);
    FirstIndexCons(cols[0], cols[1..], Id, y);
    FirstIndexCons(cols[0], rest, Id, x);
    FirstIndexCons(cols[0], rest, Id, y);
    if cols[0] != x {
      PresentOrder(cols[1..], columns, x, y);
    }
  }

  /** Two distinct kept names are in the filtered list in the order of the full list. */
  lemma PresentPair(cols: seq<string>, columns: seq<string>, x: string, y: string)
    requires x != y && x in cols && y in cols && x in columns && y in columns
    requires FirstIndex(PresentColumns(cols, columns), Id, x) < FirstIndex(PresentColumns(cols, columns), Id, y)
    ensures FirstIndex(cols, Id, x) < FirstIndex(cols, Id, y)
  {
    FirstIndexIn(cols, x);
    FirstIndexIn(cols, y);
    if FirstIndex(cols, Id, y) < FirstIndex(cols, Id, x) {
      PresentOrder(cols, columns, y, x);
    }
  }

  /** A name in the list is found at its first position. */
  lemma FirstIndexIn(xs: seq<string>, x: string)
    requires x in xs
    ensures FirstIndex(xs, Id, x) < |xs| && xs[FirstIndex(xs, Id, x)] == x
  {
    var j :| 0 <= j < |xs| && xs[j] == x;
    assert Id(xs[j]) == x;
  }

  /**
   * The named columns a table has, de-duplicated: no repeats, exactly the
   * names listed and present, in the order of their first listing.
   */
  lemma PresentDedup(cols: seq<string>, columns: seq<string>)
    ensures var r := Dedup(PresentColumns(cols, columns));
      && Distinct(r)
      && (forall c :: c in r <==> c in cols && c in columns)
      && (forall i, j :: 0 <= i < j < |r| ==> FirstIndex(cols, Id, r[i]) < FirstIndex(cols, Id, r[j]))
  {
    var p := PresentColumns(cols, columns);
    var r := Dedup(p);
    DedupSpec(p);
    forall i, j | 0 <= i < j < |r|
      ensures FirstIndex(cols, Id, r[i]) < FirstIndex(cols, Id, r[j])
    {
      PresentPair(cols, columns, r[i], r[j]);
    }
  }

  /** The first of `cols` that is not a column of `t`. */
  function FirstMissing(t: Table, cols: seq<string>): (r: Option<string>)
    ensures r.None? <==> forall k :: 0 <= k < |cols| ==> cols[k] in t.columns
    ensures r.Some? ==> r.value in cols && r.value !in t.columns
  {
    if cols == [] then None
    else if cols[0] !in t.columns then Some(cols[0])
    else FirstMissing(t, cols[1..])
  }

  /** A column holding `c` in every one of `n` rows (`df[name] = value`). */
  function Constant(n: nat, c: Cell): (r: seq<Cell>)
    ensures |r| == n && forall k :: 0 <= k < n ==> r[k] == c
  {
    seq(n, k requires 0 <= k < n => c)
  }

  /** The cells of column `c`, row by row. */
  function ColumnCells(t: Table, c: string): (r: seq<Cell>)
    ensures |r| == |t.rows|
    ensures forall i :: 0 <= i < |t.rows| ==> r[i] == Get(t, i, c)
  {
    seq(|t.rows|, i requires 0 <= i < |t.rows| => Get(t, i, c))
  }

  /** `df[cols]` for columns that all exist. */
  function Select(t: Table, cols: seq<string>): (r: Table)
    requires forall k :: 0 <= k < |cols| ==> cols[k] in t.columns
    ensures r.Shaped() && r.columns == cols && |r.rows| == |t.rows|
    ensures forall i, k :: 0 <= i < |t.rows| && 0 <= k < |cols| ==> r.rows[i][k] == Get(t, i, cols[k])
  {
    Table(cols, seq(|t.rows|, i requires 0 <= i < |t.rows| =>
      seq(|cols|, k requires 0 <= k < |cols| => Get(t, i, cols[k]))))
  }

  /** Lookup by name in a selection of distinct columns reads the source column. */
  lemma SelectGet(t: Table, cols: seq<string>, i: int, c: string)
    requires forall k :: 0 <= k < |cols| ==> cols[k] in t.columns
    requires c in cols
    ensures Get(Select(t, cols), i, c) == Get(t, i, c)
  {
  }

  /** Indices of the true entries of `mask`, in increasing order. */
  function Kept(mask: seq<bool>): (r: seq<nat>)
    ensures |r| <= |mask|
    ensures forall k :: 0 <= k < |r| ==> r[k] < |mask| && mask[r[k]]
    ensures forall k, l :: 0 <= k < l < |r| ==> r[k] < r[l]
    ensures forall i :: 0 <= i < |mask| && mask[i] ==> i in r
  {
    if mask == [] then []
    else
      var init := Kept(mask[..|mask| - 1]);
      if mask[|mask| - 1] then init + [|mask| - 1] else init
  }

  lemma {:induction false} KeptNone(mask: seq<bool>)
    requires forall a :: 0 <= a < |mask| ==> !mask[a]
    ensures Kept(mask) == []
  {
    if mask != [] {
      KeptNone(mask[..|mask| - 1]);
    }
  }

  /** A mask true in at most one place keeps at most one index. */
  lemma {:induction false} KeptAtMostOne(mask: seq<bool>)
    requires forall a, b :: 0 <= a < |mask| && 0 <= b < |mask| && mask[a] && mask[b] ==> a == b
    ensures |Kept(mask)| <= 1
  {
    if mask != [] {
      var init := mask[..|mask| - 1];
      KeptAtMostOne(init);
      if mask[|mask| - 1] {
        forall a | 0 <= a < |init|
          ensures !init[a]
        {
          assert init[a] == mask[a];
        }
        KeptNone(init);
      }
    }
  }

  /** An all-true mask keeps every index. */
  lemma {:induction false} KeptAll(mask: seq<bool>)
    requires forall a :: 0 <= a < |mask| ==> mask[a]
    ensures |Kept(mask)| == |mask|
    ensures forall q :: 0 <= q < |mask| ==> Kept(mask)[q] == q
  {
    if mask != [] {
      KeptAll(mask[..|mask| - 1]);
    }
  }

  /** `df[mask]`: the rows whose mask entry is true, in order. */
  function Where(t: Table, mask: seq<bool>): (r: Table)
    requires |mask| == |t.rows|
    ensures r.columns == t.columns && |r.rows| == |Kept(mask)|
    ensures forall k :: 0 <= k < |r.rows| ==> r.rows[k] == t.rows[Kept(mask)[k]]
    ensures t.Shaped() ==> r.Shaped()
  {
    var idx := Kept(mask);
    Table(t.columns, seq(|idx|, k requires 0 <= k < |idx| => t.rows[idx[k]]))
  }

  /** `df[c].notna()`. */
  function NotNullMask(t: Table, c: string): (m: seq<bool>)
    ensures |m| == |t.rows|
    ensures forall i :: 0 <= i < |m| ==> (m[i] <==> Get(t, i, c) != Null)
  {
    seq(|t.rows|, i requires 0 <= i < |t.rows| => Get(t, i, c) != Null)
  }

  /** `df.iloc[idx]`: rows picked by position, in the given order. */
  function Pick(t: Table, idx: seq<nat>): (r: Table)
    requires forall k :: 0 <= k < |idx| ==> idx[k] < |t.rows|
    ensures r.columns == t.columns && |r.rows| == |idx|
    ensures forall k :: 0 <= k < |idx| ==> r.rows[k] == t.rows[idx[k]]
    ensures t.Shaped() ==> r.Shaped()
  {
    Table(t.columns, seq(|idx|, k requires 0 <= k < |idx| => t.rows[idx[k]]))
  }

  lemma WhereGet(t: Table, mask: seq<bool>, k: int, c: string)
    requires |mask| == |t.rows|
    requires 0 <= k < |Kept(mask)|
    ensures Get(Where(t, mask), k, c) == Get(t, Kept(mask)[k], c)
  {
  }
}
