/**
 * The percentile scope registry: each scope name selects the columns whose
 * values define a comparison group.
 */
module Scopes {
  import opened Tables

  datatype ScopeSpec = ScopeSpec(name: string, groupCols: seq<string>)

  /** Scope name to grouping columns, in declaration order. */
  const ScopeGroups: seq<(string, seq<string>)> := [
    ("league_season", ["league", "season", "position_bucket"]),
    ("league_multi_season", ["league", "position_bucket"]),
    ("multi_league_season", ["season", "position_bucket"]),
    ("multi_league_multi_season", ["position_bucket"])
  ]

  /** The registry's names, in order (what the error message lists). */
  function Names(entries: seq<(string, seq<string>)>): (r: seq<string>)
    ensures |r| == |entries|
    ensures forall k :: 0 <= k < |r| ==> r[k] == entries[k].0
  {
    seq(|entries|, k requires 0 <= k < |entries| => entries[k].0)
  }

  /** The grouping columns registered under `name`, if any. */
  function Lookup(entries: seq<(string, seq<string>)>, name: string): (r: Option<seq<string>>)
    ensures r.None? <==> name !in Names(entries)
    ensures r.Some? ==> (name, r.value) in entries
  {
    if entries == [] then None
    else if entries[0].0 == name then Some(entries[0].1)
    else
      var r := Lookup(entries[1..], name);
      assert Names(entries) == [entries[0].0] + Names(entries[1..]);
      r
  }

  /** The scope spec for a name; an unknown name is an error naming it and the supported names. */
  function GetScopeSpec(scopeName: string): (r: Result<ScopeSpec>)
    ensures r.Err? <==> scopeName !in Names(ScopeGroups)
    ensures r.Err? ==> r.error == UnknownScope(scopeName, Names(ScopeGroups))
    ensures r.Ok? ==> r.value.name == scopeName && (scopeName, r.value.groupCols) in ScopeGroups
  {
    match Lookup(ScopeGroups, scopeName)
    case None => Err(UnknownScope(scopeName, Names(ScopeGroups)))
    case Some(cols) => Ok(ScopeSpec(scopeName, cols))
  }

  /** Exactly the four documented scopes are supported. */
  lemma SupportedScopes(s: string)
    ensures GetScopeSpec(s).Ok? <==>
      s in {"league_season", "league_multi_season", "multi_league_season", "multi_league_multi_season"}
  {
    assert Names(ScopeGroups) == ["league_season", "league_multi_season", "multi_league_season", "multi_league_multi_season"];
  }

  /** Every scope compares players within their position bucket. */
  lemma EveryScopeBucketed(s: string)
    requires GetScopeSpec(s).Ok?
    ensures "position_bucket" in GetScopeSpec(s).value.groupCols
  {
  }

  /** `league_season` is the finest scope: its columns include every other scope's. */
  lemma LeagueSeasonFinest(s: string, c: string)
    requires GetScopeSpec(s).Ok? && c in GetScopeSpec(s).value.groupCols
    ensures c in GetScopeSpec("league_season").value.groupCols
  {
    assert GetScopeSpec("league_season").value.groupCols == ["league", "season", "position_bucket"];
  }
}
