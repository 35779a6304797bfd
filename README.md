# recruitment-support core, in Dafny

A model of the core of the `rsfbref` football-recruitment pipeline. The
pipeline turns FBref per-stat-type player-season tables into the following:

- a player-season base table;
- a cleaned feature table (minutes, position bucket, per-90 metrics);
- grouped percentiles;
- rule-based role scores;
- a role shortlist;
- a comparables (nearest-neighbour) edge table;
- two mart facts: the player-season fact and the long role profile card.

Data frames are modelled as positional tables:

- `Tables.Table(columns, rows)` holds the column names in order and the rows
  of cells. A cell is `Null`, `Num(real)` or `Str(string)`.
- Reading a column by name takes its first occurrence. A missing column
  reads as `Null`.
- Errors the Python code raises become `Result.Err` values. Examples: a
  `KeyError` on a missing column, the `ValueError` for an unknown scope, and
  a merge-validation `MergeError`.

Loops that rebuild a frame step by step are `method`s, and each is proved
equal to a fold function. Every property is stated and proved about that
fold function.

Modules, one per source file, plus shared helpers:

| module | models |
|---|---|
| `Flatten` | `transform/flatten.py` |
| `Merge` | pandas' `DataFrame.merge(how="left", validate=...)` as used by the pipeline |
| `PlayerSeason` | `transform/player_season.py` |
| `PositionBucket` | `transform/position_bucket.py` |
| `CleanPlayerSeason` | `transform/clean_player_season.py` |
| `Scopes` | `features/scopes.py` |
| `Percentiles` | `features/percentiles.py` |
| `Roles` | `analytics/roles.py` |
| `Shortlist` | `analytics/shortlist.py` |
| `Comparables` | `analytics/comparables.py` |
| `BuildFacts` | `marts/build_facts.py` |
| `Tables`, `Seqs`, `Sorting`, `Text` | shared table, sequence, sorting and string helpers |

## Model

| member | source | states |
|---|---|---|
| Flatten.FlattenSpec | src/rsfbref/transform/flatten.py:9-16 | flattening keeps the rows and the number and order of columns; each name is the cleaned joined name; no resulting name contains a space or "%" |
| Flatten.FlattenIdempotent | src/rsfbref/transform/flatten.py:15 | flattening an already flattened single-level frame changes nothing |
| Flatten.CleanNameIdempotent | src/rsfbref/transform/flatten.py:15 | strip + " "→"_" + "%"→"pct" applied twice equals applying it once |
| Flatten.CleanNameShape | src/rsfbref/transform/flatten.py:15 | a cleaned name has no space, no "%", and no white space at either end |
| Flatten.PartsShape | src/rsfbref/transform/flatten.py:12 | no joined MultiIndex part is "nan" or has surrounding white space |
| Flatten.JoinTupleOne | src/rsfbref/transform/flatten.py:12 | a tuple with a single kept level is named by that level, stripped of white space and "_" |
| Flatten.PartsConcat | src/rsfbref/transform/flatten.py:12 | the kept parts of a concatenated tuple are the concatenation of the kept parts |
| Merge.OriginsSound | src/rsfbref/transform/player_season.py:85 | every merged row pairs a left row with a right row whose keys are equal, or is unmatched when no right row matches |
| Merge.OriginsComplete | src/rsfbref/transform/player_season.py:85 | every left row appears once per matching right row, or once unmatched |
| Merge.OriginsOrdered | src/rsfbref/transform/player_season.py:85 | merged rows follow the left-row order |
| Merge.OriginsOneToOne | src/rsfbref/transform/player_season.py:85 | with unique right keys, merged row p comes from left row p |
| Merge.MergeKeepsLeftRows | src/rsfbref/transform/player_season.py:85 | a "1:1" left merge keeps exactly the left rows, in order, each extended to the right |
| Merge.MergedNames | src/rsfbref/transform/player_season.py:85 | the merged columns are the left names (keys unchanged, others possibly suffixed), then the right non-key names |
| Merge.MergeKeyCells | src/rsfbref/transform/player_season.py:85 | after a successful 1:1 merge the key cells read as in the left table |
| PlayerSeason.DedupeOnKeySpec | src/rsfbref/transform/player_season.py:45-53 | `_dedupe_on_key` fails exactly when a KEY column is missing; otherwise it keeps the columns, leaves keys unique, keeps the first row of every key, in input order |
| PlayerSeason.DropEntitySpec | src/rsfbref/transform/player_season.py:77-78 | dropping removes exactly the entity columns outside KEY, keeps every row, and the remaining columns read as before |
| PlayerSeason.PrefixNonKeyCols | src/rsfbref/transform/player_season.py:36-42 | the rename loop yields the prefixed table `Prefix(t, st)` |
| PlayerSeason.PrefixSpec | src/rsfbref/transform/player_season.py:36-42 | key names stay, every other column becomes `<st>__<c>`, rows are unchanged, distinct names stay distinct |
| PlayerSeason.PrefixNameInjective | src/rsfbref/transform/player_season.py:41 | prefixing never makes two names equal |
| PlayerSeason.MergeInputSpec | src/rsfbref/transform/player_season.py:70-84 | the table merged in for a stat type has all key columns, unique keys and only `<st>__` columns besides the keys |
| PlayerSeason.MergeStepSpec | src/rsfbref/transform/player_season.py:66-85 | one merge pass fails only on a missing key column (never on "1:1" validation); it keeps base rows, order and key cells, and adds only `<st>__` columns |
| PlayerSeason.MergeStepValues | src/rsfbref/transform/player_season.py:70-85 | every added column is `<st>__<c>` for a non-key, non-dropped column c of the stat table, and every such c is added; on base row i it holds c from the first stat row with row i's KEY, or null when no stat row has that KEY |
| PlayerSeason.CarriesGrows | src/rsfbref/transform/player_season.py:85 | later merges keep the columns an earlier merge brought in, with their values |
| PlayerSeason.MergeAllSpec | src/rsfbref/transform/player_season.py:66-85 | the merge loop succeeds exactly when every non-standard table has every key column, and its result extends the standard table |
| PlayerSeason.MergeAllValues | src/rsfbref/transform/player_season.py:66-85 | after the loop, every non-standard table's non-key columns are present as `<st>__<c>`, holding on each row the value of the first stat row with that row's KEY, or null |
| PlayerSeason.BuildBaseSpec | src/rsfbref/transform/player_season.py:56-87 | the base table exists exactly when "standard" is present and every table has the key; its rows are the de-duplicated standard rows, extended, with unique keys, and every non-standard table's columns are brought in as `<st>__<c>` with the value of the first stat row with the same KEY, or null |
| PlayerSeason.BuildPlayerSeasonBase | src/rsfbref/transform/player_season.py:56-87 | the loop over the bundle computes `BuildBase` |
| PlayerSeason.MergeOne | src/rsfbref/transform/player_season.py:70-85 | one loop iteration computes `MergeStep` |
| PlayerSeason.MergeLoop | src/rsfbref/transform/player_season.py:66-85 | the loop over the bundle skips "standard", stops at the first failing merge, and computes `MergeAll` |
| PositionBucket.NormalizeNoSpace | src/rsfbref/transform/position_bucket.py:13-19 | a normalised position has no space, is "" for a null, and uses only characters of the input |
| PositionBucket.NormalizeIdempotent | src/rsfbref/transform/position_bucket.py:13-19 | normalising twice equals normalising once |
| PositionBucket.BaseLookup | src/rsfbref/transform/position_bucket.py:61 | `pos_exact` wins over `pos_combo`; empty entries are skipped; the base is "" only when neither table has a value |
| PositionBucket.InferGoalkeeper | src/rsfbref/transform/position_bucket.py:64-65 | any position containing "GK" is ("GK", "POS_HAS_GK") |
| PositionBucket.InferFixed | src/rsfbref/transform/position_bucket.py:71-82 | FW → CF, MF+FW combos → WIDE, MF and MFDF → DMCM, with their reason codes |
| PositionBucket.InferDf | src/rsfbref/transform/position_bucket.py:93-107 | a plain defender gets the first met of the four threshold rules (aerial, clearances, crosses, xA), else the configured default |
| PositionBucket.InferDfMf | src/rsfbref/transform/position_bucket.py:109-116 | a DF,MF gets the first met of the crosses and xA rules, else the configured default |
| PositionBucket.FirstMetSpec | src/rsfbref/transform/position_bucket.py:93-116 | the reference rule list is decided by its first rule that is met |
| PositionBucket.FirstMetNone | src/rsfbref/transform/position_bucket.py:107 | with no rule met, the fallback bucket is returned |
| PositionBucket.InferOther | src/rsfbref/transform/position_bucket.py:119-121 | any other base is OTHER, with reason `POS_<base>` or `POS_UNKNOWN` |
| PositionBucket.InferBucketRange | src/rsfbref/transform/position_bucket.py:47-50 | the bucket is one of the seven documented buckets or a configured default |
| PositionBucket.MissingSignalNeverFires | src/rsfbref/transform/position_bucket.py:29-35 | a rule whose signal is null or non-numeric never decides the bucket |
| CleanPlayerSeason.SimpleBucketSpec | src/rsfbref/transform/clean_player_season.py:31-51 | the bucket is UNK for null, GK if "GK" occurs, else WIDE if "FW", else DMCM if "MF", else CB if "DF", else OTHER |
| CleanPlayerSeason.CoerceNumeric | src/rsfbref/transform/clean_player_season.py:8-13 | the loop coerces each listed column that exists, equal to `ToNumeric` |
| CleanPlayerSeason.TimeFields | src/rsfbref/transform/clean_player_season.py:58-60 | the time-field stage computes `Timed`: it fails exactly on a missing time column, and otherwise copies the coerced values to `minutes` and `nineties` |
| CleanPlayerSeason.Buckets | src/rsfbref/transform/clean_player_season.py:63-65 | the bucket stage computes `Bucketed`: a null `pos` column when absent, then the bucket of every row |
| CleanPlayerSeason.BuildClean | src/rsfbref/transform/clean_player_season.py:54-126 | the step-by-step cleaning computes `CleanSpec` |
| CleanPlayerSeason.CleanOutcome | src/rsfbref/transform/clean_player_season.py:58-60 | cleaning fails exactly when `Playing_Time_Min` or `Playing_Time_90s` is missing, naming the first missing one |
| CleanPlayerSeason.SurvivorsSpec | src/rsfbref/transform/clean_player_season.py:67-71 | the surviving rows, in input order, are exactly the input rows that are not GK and have at least `min_minutes` minutes; a null never passes |
| CleanPlayerSeason.CleanColumns | src/rsfbref/transform/clean_player_season.py:108-126 | output columns have no repeats and are exactly the keep-list names the frame has, in keep-list order |
| CleanPlayerSeason.CleanRows | src/rsfbref/transform/clean_player_season.py:54-126 | each output row is the expected value of its surviving input row in every output column |
| CleanPlayerSeason.CleanNoGoalkeeper | src/rsfbref/transform/clean_player_season.py:68 | no output row has bucket GK |
| CleanPlayerSeason.CleanMinutes | src/rsfbref/transform/clean_player_season.py:59-71 | every output row has at least `min_minutes` minutes |
| CleanPlayerSeason.CleanFeature | src/rsfbref/transform/clean_player_season.py:74-106 | every engineered feature is an output column computed from its input row (per-90 rate or coerced value) |
| CleanPlayerSeason.CleanMisDis | src/rsfbref/transform/clean_player_season.py:105 | `mis_dis_p90` is the sum of the two per-90 rates, null when either is |
| CleanPlayerSeason.CleanWrittenCell | src/rsfbref/transform/clean_player_season.py:58-65 | `minutes`, `nineties`, `pos` and `position_bucket` are always output and hold the prepared values |
| Seqs.UniquePreserveOrder | src/rsfbref/marts/build_facts.py:5-17 | the loop returns `Dedup(items)`: no repeats, the same set of items, first-occurrence order |
| Seqs.DedupSpec | src/rsfbref/marts/build_facts.py:5-17 | de-duplication is no longer than its input, has no repeats, keeps every item and keeps first-occurrence order |
| Seqs.DedupNoop | src/rsfbref/transform/clean_player_season.py:16-28 | a list without repeats is returned unchanged |
| Seqs.KeepFirstByDistinct | src/rsfbref/transform/player_season.py:49 | keep-first on a key leaves no two items with one key |
| Seqs.KeepFirstByCovers | src/rsfbref/transform/player_season.py:49 | every key of the input keeps an item |
| Seqs.PyTakeCount | src/rsfbref/analytics/shortlist.py:104 | `[:n]` / `head(n)` keeps `min(n, len)` items, and `len + n` (at least 0) for negative n |
| Scopes.GetScopeSpec | src/rsfbref/features/scopes.py:21-24 | an unknown name is the error naming it and the supported names; a known one returns its registered columns |
| Scopes.SupportedScopes | src/rsfbref/features/scopes.py:5-14 | exactly the four scopes are supported |
| Scopes.EveryScopeBucketed | src/rsfbref/features/scopes.py:5-14 | every scope groups by `position_bucket` |
| Scopes.LeagueSeasonFinest | src/rsfbref/features/scopes.py:5-14 | every scope's columns are among `league_season`'s |
| Percentiles.Pct | src/rsfbref/features/percentiles.py:7-9 | a row's percentile is null exactly when its value is missing, otherwise in (0, 100] |
| Percentiles.PctTies | src/rsfbref/features/percentiles.py:8 | equal values in one group get equal percentiles (average rank) |
| Percentiles.PctMonotone | src/rsfbref/features/percentiles.py:8 | within a group, a strictly smaller value gets a strictly smaller percentile |
| Percentiles.PctUniqueMax | src/rsfbref/features/percentiles.py:8 | the unique maximum of a group gets 100 |
| Percentiles.PctLocal | src/rsfbref/features/percentiles.py:7 | a row's percentile ignores rows of other groups and null values |
| Percentiles.AddPercentiles | src/rsfbref/features/percentiles.py:4-10 | the loop over metrics computes `AddPercentilesSpec` |
| Percentiles.AddPercentilesFails | src/rsfbref/features/percentiles.py:6-9 | with metrics, it fails exactly when there are no group columns or some metric or group column is missing |
| Percentiles.AddPercentilesResult | src/rsfbref/features/percentiles.py:4-10 | it adds exactly the `pct_<m>` columns after the input's, keeps all rows and input cells, and each new cell is that row's grouped percentile |
| Roles.ApplyMustHaves | src/rsfbref/analytics/roles.py:8-32 | it fails exactly when a configured check reads a missing column; otherwise the mask is true exactly for rows passing every applicable threshold |
| Roles.UnknownMustHavesIgnored | src/rsfbref/analytics/roles.py:12-30 | keys outside the eight checks change neither the mask nor the error |
| Roles.AerialSkippedWhenAbsent | src/rsfbref/analytics/roles.py:21-22 | the aerial threshold is ignored when there is no `aerial_win_pct` column |
| Roles.AliasTable | src/rsfbref/analytics/roles.py:57-68 | the five combined keys resolve to their canonical features; every other key is its own feature |
| Roles.SkipAbsent | src/rsfbref/analytics/roles.py:70-73 | a weight whose percentile column is absent changes neither the weighted sum nor the total weight |
| Roles.RoleScoreEligibility | src/rsfbref/analytics/roles.py:45-82 | an ineligible row scores null; an eligible row with present inputs and non-zero total weight scores a number |
| Roles.RoleScoreWithin | src/rsfbref/analytics/roles.py:75-82 | with positive weights the score is a weighted mean, between the smallest and largest contribution |
| Roles.RoleScoreSingleFeature | src/rsfbref/analytics/roles.py:75-82 | a single-weight role scores the feature's percentile, or 100 minus it for a negative key |
| Roles.ScoreRoles | src/rsfbref/analytics/roles.py:34-84 | the nested loops compute `ScoreRolesSpec` |
| Roles.WeightedScores | src/rsfbref/analytics/roles.py:51-79 | the inner loop yields, for every row, the weighted sum of the present percentile columns, and the total weight of those columns |
| Roles.ScoreRolesResult | src/rsfbref/analytics/roles.py:34-84 | scoring keeps every row and every other column; each role's `score_<id>` (the last role of an id) is that role's score on the input |
| Roles.ScoreRolesKeeps | src/rsfbref/analytics/roles.py:82 | a column that no role writes keeps its cells |
| Shortlist.MeanPctNull | src/rsfbref/analytics/shortlist.py:25-34 | the mean is null exactly when no listed column has a value at the row |
| Shortlist.MeanPctPresentOnly | src/rsfbref/analytics/shortlist.py:26 | absent columns play no part |
| Shortlist.MeanPctWithin | src/rsfbref/analytics/shortlist.py:29-34 | percentile inputs give a subscore within 0..100, inverted or not |
| Shortlist.MeanPctSingle | src/rsfbref/analytics/shortlist.py:30-34 | with one value present, the mean is that value, inverted when listed |
| Shortlist.SecurityMatchesTable | src/rsfbref/analytics/shortlist.py:4-65 | the security subscore averages exactly the table's security columns and inverts the second |
| Shortlist.RiskFlagListSpec | src/rsfbref/analytics/shortlist.py:75-85 | a flag is listed exactly when raised, once, in the fixed order |
| Shortlist.RiskCountSpec | src/rsfbref/analytics/shortlist.py:85-86 | `risk_count` equals the number of raised flags, and `risk_flags` is "" exactly when none is |
| Shortlist.EvidenceStrings | src/rsfbref/analytics/shortlist.py:36-51 | an unknown role is an error; otherwise every row is kept |
| Shortlist.RankOrderSpec | src/rsfbref/analytics/shortlist.py:104 | the order is a permutation of the rows, sorted by score then minutes, and rows with equal keys keep their input order (pandas' multi-key sort is stable) |
| Shortlist.EnrichOutcome | src/rsfbref/analytics/shortlist.py:60-86 | a non-empty pool's enrichment fails exactly for an unknown role, missing `minutes` or missing `age`, in that order |
| Shortlist.EnrichTotal | src/rsfbref/analytics/shortlist.py:72 | `total_score` is the role score |
| Shortlist.EnrichSecurity | src/rsfbref/analytics/shortlist.py:60-65 | `sub_security` is the role's inverted security mean |
| Shortlist.EnrichSubscore | src/rsfbref/analytics/shortlist.py:67-70 | every other subscore is the mean of its present percentile columns |
| Shortlist.EnrichRisk | src/rsfbref/analytics/shortlist.py:84-86 | `risk_flags` joins the raised flags with a vertical bar; `risk_count` counts them |
| Shortlist.EnrichEvidence | src/rsfbref/analytics/shortlist.py:45-50 | `evidence_<a>` is present exactly when the KPI's raw and percentile values are |
| Shortlist.FinishShape | src/rsfbref/analytics/shortlist.py:99-105 | the output has the present output columns, then `role_id` and `rank`, and `head(top_n)` rows |
| Shortlist.FinishRow | src/rsfbref/analytics/shortlist.py:101-105 | output row k has rank k+1, the role id, and copies its pool row |
| Shortlist.FinishOrder | src/rsfbref/analytics/shortlist.py:104 | the chosen rows are distinct, sorted descending with missing last, and no left-out row sorts before a chosen one |
| Shortlist.FinishSorted | src/rsfbref/analytics/shortlist.py:104 | output rows are ordered by total score then minutes |
| Shortlist.ShortlistOutcome | src/rsfbref/analytics/shortlist.py:53-89 | a missing score column is an error, an empty pool an empty table, otherwise the enrichment's errors |
| Shortlist.ShortlistRows | src/rsfbref/analytics/shortlist.py:53-106 | a shortlist has `top_n` of the scored rows, ranked 1.., tagged, with non-null totals, sorted |
| Shortlist.BuildShortlist | src/rsfbref/analytics/shortlist.py:53-106 | the step-by-step build computes `BuildShortlistSpec` |
| Shortlist.FillSubscores | src/rsfbref/analytics/shortlist.py:67-70 | the subscore loop computes `AddSubscores` |
| Shortlist.FillEvidence | src/rsfbref/analytics/shortlist.py:45-50 | the evidence loop computes `AddEvidence` |
| Comparables.ReasonIndicesSpec | src/rsfbref/analytics/comparables.py:65-66 | the reason indices are min(k, n) distinct features by non-increasing absolute difference, and none left out differs more |
| Comparables.ReasonCount | src/rsfbref/analytics/comparables.py:66 | three reasons, or fewer when there are fewer features |
| Comparables.ReasonSign | src/rsfbref/analytics/comparables.py:69-72 | a reason is "<feature>:higher" exactly when the comparable's value is larger, else "lower" |
| Comparables.FeatureLabelStrips | src/rsfbref/analytics/comparables.py:71 | a `pct_` feature is labelled by the rest of its name |
| Comparables.TopReasonCodes | src/rsfbref/analytics/comparables.py:55-73 | the loop computes `ReasonCodes` |
| Comparables.NeighboursSpec | src/rsfbref/analytics/comparables.py:149-150 | the neighbour list has `eff_top_n` entries, excludes the anchor, has no repeats, is closest first, and no unlisted row is closer |
| Comparables.PrepareSpec | src/rsfbref/analytics/comparables.py:99-131 | the guards yield no edges exactly when the score or an identity column is missing, no feature exists, or fewer than two rows are scored; otherwise the pool is the scored rows and `eff_top_n` is `top_n` capped at the pool size minus one |
| Comparables.FeatureMatrixSpec | src/rsfbref/analytics/comparables.py:134-140 | present values are kept (as 100 - v when inverted); a missing one becomes the column median, within the column's range |
| Comparables.PrepareMatrix | src/rsfbref/analytics/comparables.py:134-140 | the fill-then-invert loop computes `FeatureMatrix` |
| Comparables.AnchorEdgesCount | src/rsfbref/analytics/comparables.py:131-150 | each anchor gets `eff_top_n` rows (bounded by the pool) |
| Comparables.AnchorEdgeAt | src/rsfbref/analytics/comparables.py:152-183 | edge r of an anchor has rank r+1, both identities, the distance, and flags true exactly when league/season differ |
| Comparables.AnchorEdgesOrdered | src/rsfbref/analytics/comparables.py:149-152 | an anchor's edges come closest first |
| Comparables.FlagsOnMissing | src/rsfbref/analytics/comparables.py:175-176 | a missing league counts as different (NaN comparison) |
| Comparables.AllEdgesAt | src/rsfbref/analytics/comparables.py:147-183 | anchors appear in pool order: edge r of anchor i is row i·count + r |
| Comparables.EmitEdges | src/rsfbref/analytics/comparables.py:147-183 | the nested loops compute `AllEdges` |
| Comparables.CompleteSpec | src/rsfbref/analytics/comparables.py:134-145 | the median-filled feature matrix has a number in every cell exactly when every feature column has at least one numeric value in the pool |
| Comparables.BuildFactComparables | src/rsfbref/analytics/comparables.py:76-185 | guarded cases give the 20-column schema with no edges; otherwise the build fails with a non-finite-input error exactly when some feature column has no numeric value in the pool (NaN reaches `cosine_distances`), and else yields the 20-column schema with the edges of every anchor |
| Comparables.NoEdgesLoseSchema | src/rsfbref/analytics/comparables.py:185 | with no neighbour per anchor, the frame as written has no columns while the corrected frame has the schema |
| BuildFacts.DedupeColumnsNames | src/rsfbref/marts/build_facts.py:20-30 | column de-duplication keeps each name once, in first-occurrence order |
| BuildFacts.DedupeColumnsCells | src/rsfbref/marts/build_facts.py:29 | every column reads as its first occurrence did |
| BuildFacts.DedupeColumnsNoop | src/rsfbref/marts/build_facts.py:25 | a frame without repeated names is unchanged |
| BuildFacts.FactColumnsSpec | src/rsfbref/marts/build_facts.py:51-68 | fact columns have no repeats, are exactly the present listed or `pct_`/`score_` columns, listed first, then extras in input order |
| BuildFacts.FactShape | src/rsfbref/marts/build_facts.py:36-77 | the fact table is well formed, has the fact columns, and never more rows than the input |
| BuildFacts.FactRowsFromInput | src/rsfbref/marts/build_facts.py:70-75 | every fact row holds some input row's values; with the id column, fact row k holds the values of the first input row whose `player_team_season_id` equals row k's (no earlier input row has that id), and fact rows follow the input order of those rows (`keep="first"`) |
| BuildFacts.FactUnique | src/rsfbref/marts/build_facts.py:73-75 | with the id column, at most one row per `player_team_season_id` |
| BuildFacts.FactCovers | src/rsfbref/marts/build_facts.py:73-75 | every input id has a fact row |
| BuildFacts.FactNoKey | src/rsfbref/marts/build_facts.py:74 | without the id column, every row is kept in order |
| BuildFacts.RoleIdRoundTrip | src/rsfbref/marts/build_facts.py:95-107 | a score column's role id leads back to the column |
| BuildFacts.NoScoresEmpty | src/rsfbref/marts/build_facts.py:115-116 | with no `score_` column the card is an empty table |
| BuildFacts.JoinKeysSpec | src/rsfbref/marts/build_facts.py:122-123 | the join keys are exactly the candidate keys both tables have |
| BuildFacts.HeaderRowCount | src/rsfbref/marts/build_facts.py:106-118 | before the null filter, the header has one row per used role and input row |
| BuildFacts.HeaderRowIndex | src/rsfbref/marts/build_facts.py:106-118 | the concatenation is role by role: row i of the b-th used role sits at position b·n + i |
| BuildFacts.HeaderRowSound | src/rsfbref/marts/build_facts.py:105-119 | every header row is a scored (row, role) pair with its ids, role id and non-null score |
| BuildFacts.HeaderRowComplete | src/rsfbref/marts/build_facts.py:105-119 | every scored (row, role) pair has a header row |
| BuildFacts.RoleCardOutcome | src/rsfbref/marts/build_facts.py:115-130 | the corrected card fails only when a header exists but no join key is shared |
| BuildFacts.RoleCardRows | src/rsfbref/marts/build_facts.py:125-132 | the corrected card is the left merge of header and long percentiles: each header row is kept, and each card row extends one |
| BuildFacts.BuildFactRoleProfileCard | src/rsfbref/marts/build_facts.py:80-133 | the header loop and merge compute the corrected `RoleCard` |
| BuildFacts.HeaderKeysRepeat | src/rsfbref/marts/build_facts.py:105-119 | two scored roles of one row give two header rows with equal join keys |
| BuildFacts.RoleCardAsWrittenRejects | src/rsfbref/marts/build_facts.py:125-130 | as written, the "1:m" validation fails whenever a row has two scored roles and both tables have the id |

## Left out

- Reading FBref (`read_player_season_bundle`), YAML loading (`load_roles`, `load_position_map`), parquet/CSV export, the scripts and `build_dims` are I/O or callers. They are not part of this model.
- The scripts import `build_fact_role_profile_card` and `build_percentiles_long`, which the source does not define. These functions are not part of this model.
- `print` diagnostics in `_dedupe_on_key` and `_dedupe_columns` are not modelled.
- The bundle dict becomes a sequence of (name, table) entries. A repeated name is possible in the model but not in Python, and lookup takes the first.
- Numeric text is not parsed. `pd.to_numeric(errors="coerce")` and `_f` (src/rsfbref/transform/position_bucket.py:29-35) read non-numeric text as missing, as the model reads every `Str` cell, but they would parse "12" as 12.
- Roles.ApplyMustHaves: a text cell in a must-have column is read as "not met", so the row is not eligible. pandas' `>=` on an object column holding text raises TypeError instead (src/rsfbref/analytics/roles.py:13-30). The stated failure covers only the KeyError of a missing column.
- Shortlist.RiskFlagListSpec: a text cell in `minutes`, `pct_errors_p90`, `pct_mis_dis_p90` or `age` raises no flag. In the source, `between`, `>=` and `<=` raise TypeError on such a cell (src/rsfbref/analytics/shortlist.py:76-82). `age` is never coerced to a number, so an FBref age written as text such as "27-123" takes this path.
- Shortlist.EnrichOutcome: the stated failures (unknown role, missing `minutes`, missing `age`) leave out that TypeError. Where the source raises on a text cell in a flag comparison, the model enriches the row without that flag.
- Shortlist.RankOrderSpec: a text cell in `total_score` or `minutes` sorts as missing (so also in FinishOrder and FinishSorted), whereas `sort_values` on a column mixing text and numbers raises TypeError (src/rsfbref/analytics/shortlist.py:104).
- Shortlist.MeanPct: a text cell is read as null, whereas `astype(float)` (src/rsfbref/analytics/shortlist.py:29) raises ValueError on non-numeric text.
- Roles.AddWeighted: a text cell in a percentile column is read as null, whereas `score += w * val` (src/rsfbref/analytics/roles.py:79) raises TypeError.
- Division by zero gives null. Examples: per-90 with `nineties == 0`, and a role score with total weight 0. pandas gives inf or NaN.
- Roles.RoleScoreWithin: proved only for positive weights. With weights of mixed sign the score is not a weighted mean, and no bound is stated.
- `_is_num` in `position_bucket.py` is never called, so it is not modelled. A non-string position (a number) is modelled as text or null only.
- Comparables.BuildFactComparables: `RobustScaler` and `cosine_distances` are external numeric code. The scaled matrix `xs` and the distance matrix `d` are inputs, and the contract does not relate their values to the prepared matrix. The only failure of that code that is modelled is NaN input, which happens exactly when a feature column has no numeric value.
- Comparables.NeighboursSpec: `np.argsort` tie order is not promised. Only order-independent facts are stated.
- Comparables.ReasonIndicesSpec: likewise for the reversed argsort.
- Shortlist.EnrichEvidence: the evidence text `k=<raw:.2f> (p<pct:.0f>)` is modelled as `Str(k + "=")`. The model states only when the string is present. Number formatting is not modelled.
- Percentiles.Pct: floating-point rounding of `rank * 100` is not modelled (exact reals). A text value in a metric column counts as missing.
- Percentiles.AddPercentilesResult: stated for metric names that do not clash with existing or group column names (`NoClash`). When names clash, a later column overwrites an earlier one, as in pandas, and no result is stated.
- Merge.MergeLeft: a merge on an empty key list is an error. pandas' behaviour there is version-dependent.
- The long percentile table read by the role profile card is taken as any table. Its producer is not part of this model.

## Findings

| source | as written | input that shows it | evidently intended | confidence | as-written member | corrected member |
|---|---|---|---|---|---|---|
| src/rsfbref/analytics/comparables.py:185 | `pd.DataFrame(rows)` takes its columns from the row dicts, so when no edge is emitted after the guards pass, the frame has no columns | a pool of two scored rows whose feature columns hold numbers, with `top_n = 0` (so `eff_top_n = 0`) | the same 20-column schema that every guarded empty result carries | not executed; medium | Comparables.NoEdgesExample | Comparables.BuildFactComparables |
| src/rsfbref/marts/build_facts.py:125-130 | the header has one row per (player, role), yet the merge is validated "1:m", which demands unique left keys | one `player_team_season_id` with `score_a = 1` and `score_b = 2`, and one long percentile row with that id (the input needs two configured roles sharing one `position_bucket`, since `score_roles` writes a non-null score only for rows in the role's bucket, src/rsfbref/analytics/roles.py:45,82; the role configuration is not part of this model) | a many-to-many join, giving the documented grain player × role × kpi | not executed; high | BuildFacts.RoleCardAsWrittenExample | BuildFacts.RoleCardRows |
