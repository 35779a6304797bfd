/**
 * Column-name flattening: a two-level (MultiIndex) header becomes one name
 * per column by joining its parts with "_", and every name is then stripped,
 * with spaces turned into "_" and "%" into "pct". Cell data is untouched.
 */
module Flatten {
  import opened Text
  import opened Tables

  /** One level of a MultiIndex column: a missing level, a NaN, or text. */
  datatype Level = NoLevel | NaNLevel | Label(s: string)

  /** A header is single-level names or MultiIndex tuples. */
  datatype Header = Flat(names: seq<string>) | Multi(tuples: seq<seq<Level>>)

  /** A data frame before flattening. */
  datatype Frame = Frame(header: Header, rows: seq<seq<Cell>>)

  /** Python truthiness of a level: `None` and `""` are false, NaN is true. */
  predicate Truthy(x: Level) {
    match x
    case NoLevel => false
    case NaNLevel => true
    case Label(s) => s != ""
  }

  /** `str(x)`. */
  function Shown(x: Level): string {
    match x
    case NoLevel => "None"
    case NaNLevel => "nan"
    case Label(s) => s
  }

  /** A level joins the name when it is truthy and its stripped text is not "nan". */
  predicate KeptLevel(x: Level) {
    Truthy(x) && Strip(Shown(x)) != "nan"
  }

  /** The stripped texts of the kept levels, in order. */
  function Parts(tup: seq<Level>): (r: seq<string>)
    ensures |r| <= |tup|
  {
    if tup == [] then []
    else Part(tup[0]) + Parts(tup[1..])
  }

  /** What one level contributes: its stripped text when it is kept, nothing otherwise. */
  function Part(x: Level): seq<string> {
    if KeptLevel(x) then [Strip(Shown(x))] else []
  }

  /** One tuple's name: the kept parts joined by "_", with "_" trimmed from both ends. */
  function JoinTuple(tup: seq<Level>): string {
    TrimChar(Join(Parts(tup), "_"), '_')
  }

  /** The second pass on every name: strip, then " " to "_" and "%" to "pct". */
  function CleanName(c: string): string {
    ReplaceAll(ReplaceAll(Strip(c), " ", "_"), "%", "pct")
  }

  /** The names before the second pass. */
  function HeaderNames(h: Header): (r: seq<string>)
    ensures h.Flat? ==> r == h.names
    ensures h.Multi? ==> |r| == |h.tuples| && forall i :: 0 <= i < |r| ==> r[i] == JoinTuple(h.tuples[i])
  {
    match h
    case Flat(names) => names
    case Multi(tuples) => seq(|tuples|, i requires 0 <= i < |tuples| => JoinTuple(tuples[i]))
  }

  /** `flatten_columns(df)`. */
  function FlattenColumns(f: Frame): (r: Table) {
    var names := HeaderNames(f.header);
    Table(seq(|names|, i requires 0 <= i < |names| => CleanName(names[i])), f.rows)
  }

  // ------------------------------------------------------------- properties

  /** `Parts` is the filter-and-strip of each level: it maps concatenation to concatenation. */
  lemma {:induction false} PartsConcat(a: seq<Level>, b: seq<Level>)
    ensures Parts(a + b) == Parts(a) + Parts(b)
    decreases |a|
  {
    if a != [] {
      assert (a + b)[0] == a[0] && (a + b)[1..] == a[1..] + b;
      PartsConcat(a[1..], b);
    } else {
      assert a + b == b;
    }
  }

  /** No part is "nan" or has white space at either end. */
  lemma {:induction false} PartsShape(tup: seq<Level>)
    ensures forall k :: 0 <= k < |Parts(tup)| ==>
      var p := Parts(tup)[k];
      p != "nan" && (p != [] ==> !IsSpace(p[0]) && !IsSpace(p[|p| - 1]))
    decreases |tup|
  {
    if tup != [] {
      PartsShape(tup[1..]);
    }
  }

  /** A single level contributes its stripped text exactly when it is kept. */
  lemma PartsSingle(x: Level)
    ensures Parts([x]) == if KeptLevel(x) then [Strip(Shown(x))] else []
  {
  }

  /** A tuple whose only kept level is one label takes that label, stripped of white space and "_". */
  lemma JoinTupleOne(pre: seq<Level>, s: string, post: seq<Level>)
    requires forall k :: 0 <= k < |pre| ==> !KeptLevel(pre[k])
    requires forall k :: 0 <= k < |post| ==> !KeptLevel(post[k])
    requires KeptLevel(Label(s))
    ensures JoinTuple(pre + [Label(s)] + post) == TrimChar(Strip(s), '_')
  {
    NoneKept(pre);
    NoneKept(post);
    PartsConcat(pre, [Label(s)]);
    PartsConcat(pre + [Label(s)], post);
  }

  lemma {:induction false} NoneKept(tup: seq<Level>)
    requires forall k :: 0 <= k < |tup| ==> !KeptLevel(tup[k])
    ensures Parts(tup) == []
    decreases |tup|
  {
    if tup != [] {
      NoneKept(tup[1..]);
    }
  }

  /** A cleaned name has no space and no "%", and no white space at either end. */
  lemma CleanNameShape(c: string)
    ensures var n := CleanName(c);
      && ' ' !in n && '%' !in n
      && (n != [] ==> !IsSpace(n[0]) && !IsSpace(n[|n| - 1]))
  {
    var x := Strip(c);
    var y := ReplaceAll(x, " ", "_");
    var z := ReplaceAll(y, "%", "pct");
    CleanLiterals();
    ReplaceCharSpec(x, ' ', "_", '%');
    ReplaceCharSpec(y, '%', "pct", ' ');
    if x != [] {
      ReplaceKeepsEnds(x, ' ', "_");
      ReplaceKeepsEnds(y, '%', "pct");
    } else {
      assert y == [] && z == [];
    }
  }

  lemma CleanLiterals()
    ensures " " == [' '] && "%" == ['%'] && '%' !in "pct" && ' ' !in "_"
    ensures !IsSpace('_') && !IsSpace('p') && !IsSpace('t')
  {
  }

  /** Replacing a character by text that neither starts nor ends with white space keeps the ends free of it. */
  lemma ReplaceKeepsEnds(s: string, c: char, rep: string)
    requires s != [] && !IsSpace(s[0]) && !IsSpace(s[|s| - 1])
    requires rep != [] && !IsSpace(rep[0]) && !IsSpace(rep[|rep| - 1])
    ensures var r := ReplaceAll(s, [c], rep);
      r != [] && !IsSpace(r[0]) && !IsSpace(r[|r| - 1])
  {
    ReplaceCharEnds(s, c, rep);
  }

  /** A name that is already clean is left as it is. */
  lemma CleanNameNoop(c: string)
    requires ' ' !in c && '%' !in c
    requires c != [] ==> !IsSpace(c[0]) && !IsSpace(c[|c| - 1])
    ensures CleanName(c) == c
  {
    StripNoop(c);
    ContainsChar(c, ' ');
    ContainsChar(c, '%');
    ReplaceAbsent(c, " ", "_");
    ReplaceAbsent(c, "%", "pct");
  }

  /** Cleaning a name twice is cleaning it once. */
  lemma CleanNameIdempotent(c: string)
    ensures CleanName(CleanName(c)) == CleanName(c)
  {
    CleanNameShape(c);
    CleanNameNoop(CleanName(c));
  }

  /**
   * Flattening keeps the number and order of columns and the cell data, and
   * no resulting name has a space or a "%".
   */
  lemma FlattenSpec(f: Frame)
    ensures var t := FlattenColumns(f);
      && t.rows == f.rows
      && |t.columns| == |HeaderNames(f.header)|
      && (forall i :: 0 <= i < |t.columns| ==> t.columns[i] == CleanName(HeaderNames(f.header)[i]))
      && (forall i :: 0 <= i < |t.columns| ==> ' ' !in t.columns[i] && '%' !in t.columns[i])
  {
    var t := FlattenColumns(f);
    forall i | 0 <= i < |t.columns|
      ensures ' ' !in t.columns[i] && '%' !in t.columns[i]
    {
      CleanNameShape(HeaderNames(f.header)[i]);
    }
  }

  /** Flattening an already flattened, single-level frame changes nothing. */
  lemma FlattenIdempotent(f: Frame)
    ensures var t := FlattenColumns(f);
      FlattenColumns(Frame(Flat(t.columns), t.rows)) == t
  {
    var t := FlattenColumns(f);
    var t2 := FlattenColumns(Frame(Flat(t.columns), t.rows));
    forall i | 0 <= i < |t.columns|
      ensures t2.columns[i] == t.columns[i]
    {
      CleanNameIdempotent(HeaderNames(f.header)[i]);
    }
  }
}
