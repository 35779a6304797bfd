/**
 * The configurable position classifier: a normalised FBref position string is
 * mapped to a base position through the configured tables, and defenders are
 * split into centre-backs and full-backs by the first numeric signal that
 * reaches its threshold. Every answer carries a reason code.
 */
module PositionBucket {
  import opened Text
  import opened Tables

  /** `normalize_pos`: null is "", otherwise stripped with every space deleted. */
  function NormalizePos(pos: Option<string>): string {
    match pos
    case None => ""
    case Some(s) => ReplaceAll(Strip(s), " ", "")
  }

  /** The result has no space, and keeps only characters of the input. */
  lemma NormalizeNoSpace(pos: Option<string>)
    ensures ' ' !in NormalizePos(pos)
    ensures pos.None? ==> NormalizePos(pos) == ""
    ensures pos.Some? ==> forall d :: d in NormalizePos(pos) ==> d in pos.value
  {
    if pos.Some? {
      var t := Strip(pos.value);
      StripWithin(pos.value);
      forall d | d in NormalizePos(pos)
        ensures d in pos.value
      {
        ReplaceCharSpec(t, ' ', "", d);
      }
      ReplaceCharSpec(t, ' ', "", 'x');
    }
  }

  lemma StripWithin(s: string)
    ensures forall d :: d in Strip(s) ==> d in s
  {
    var l := StripLeft(s);
    assert forall d :: d in l ==> d in s;
  }

  /** Normalising a normalised position changes nothing. */
  lemma NormalizeIdempotent(pos: Option<string>)
    ensures NormalizePos(Some(NormalizePos(pos))) == NormalizePos(pos)
  {
    var r := NormalizePos(pos);
    NormalizeNoSpace(pos);
    NormalizeEnds(pos);
    StripNoop(r);
    ContainsChar(r, ' ');
    ReplaceAbsent(r, " ", "");
  }

  /** A normalised position has no white space at either end. */
  lemma NormalizeEnds(pos: Option<string>)
    ensures var r := NormalizePos(pos);
      r != [] ==> !IsSpace(r[0]) && !IsSpace(r[|r| - 1])
  {
    if pos.Some? {
      var t := Strip(pos.value);
      assert " " == [' '];
      if t != [] {
        DeleteCharEnds(t, ' ');
      }
    }
  }

  /** `_f(x)`: a number, or `None` for a null or non-numeric value. */
  function Reading(c: Cell): Option<real> {
    if c.Num? then Some(c.x) else None
  }

  /** `dict.get(key, default)` on an optional setting. */
  function Or<T>(o: Option<T>, default: T): T {
    if o.Some? then o.value else default
  }

  /** `rules.df_split`: overridable thresholds and fallback for plain defenders. */
  datatype DfSplit = DfSplit(
    cbAerial: Option<real>, cbClr: Option<real>, fbCrosses: Option<real>, fbXa: Option<real>,
    defaultBucket: Option<string>)

  /** `rules.df_mf_split`: the same for defender-midfielders. */
  datatype DfMfSplit = DfMfSplit(fbCrosses: Option<real>, fbXa: Option<real>, defaultBucket: Option<string>)

  /** The position map: lookup tables and the defender rules. */
  datatype Config = Config(
    posExact: map<string, string>, posCombo: map<string, string>,
    dfSplit: DfSplit, dfmfSplit: DfMfSplit)

  /** The numeric signals, as the cells they are read from. */
  datatype Signals = Signals(crosses: Cell, xa: Cell, aerial: Cell, clr: Cell)

  /** `(position_bucket, reason_code)`. */
  datatype Bucket = Bucket(bucket: string, reason: string)

  /** `pos_exact.get(pos) or pos_combo.get(pos) or ""`: an empty mapping falls through. */
  function Base(cfg: Config, pos: string): string {
    if pos in cfg.posExact && cfg.posExact[pos] != "" then cfg.posExact[pos]
    else if pos in cfg.posCombo && cfg.posCombo[pos] != "" then cfg.posCombo[pos]
    else ""
  }

  /** A signal reaches a threshold; a missing reading never does. */
  predicate Fires(x: Option<real>, threshold: real) {
    x.Some? && x.value >= threshold
  }

  /** `infer_position_bucket` of `position_bucket.py`. */
  function Infer(posRaw: Option<string>, sig: Signals, cfg: Config): Bucket {
    var pos := NormalizePos(posRaw);
    var base := Base(cfg, pos);
    if Contains(pos, "GK") then Bucket("GK", "POS_HAS_GK")
    else if base == "FW" then Bucket("CF", "POS_FW_ONLY")
    else if base == "MFFW" || base == "FWMF" then Bucket("WIDE", "POS_MF_FW")
    else if base == "MF" then Bucket("DMCM", "POS_MF_ONLY")
    else if base == "MFDF" then Bucket("DMCM", "POS_MF_DF")
    else if base == "DF" then DfBucket(sig, cfg.dfSplit)
    else if base == "DFMF" then DfMfBucket(sig, cfg.dfmfSplit)
    else if base != "" then Bucket("OTHER", "POS_" + base)
    else Bucket("OTHER", "POS_UNKNOWN")
  }

  /** The plain-defender split: centre-back signals first, then full-back signals, then the fallback. */
  function DfBucket(sig: Signals, ds: DfSplit): Bucket {
    if Fires(Reading(sig.aerial), Or(ds.cbAerial, 55.0)) then Bucket("CB", "DF_CB_AERIAL")
    else if Fires(Reading(sig.clr), Or(ds.cbClr, 4.0)) then Bucket("CB", "DF_CB_CLEARANCES")
    else if Fires(Reading(sig.crosses), Or(ds.fbCrosses, 1.2)) then Bucket("FB", "DF_FB_CROSSES")
    else if Fires(Reading(sig.xa), Or(ds.fbXa, 0.08)) then Bucket("FB", "DF_FB_XA")
    else Bucket(Or(ds.defaultBucket, "CB"), "DF_DEFAULT")
  }

  /** The defender-midfielder split: full-back signals, then the fallback. */
  function DfMfBucket(sig: Signals, dms: DfMfSplit): Bucket {
    if Fires(Reading(sig.crosses), Or(dms.fbCrosses, 1.0)) then Bucket("FB", "DFMF_FB_CROSSES")
    else if Fires(Reading(sig.xa), Or(dms.fbXa, 0.06)) then Bucket("FB", "DFMF_FB_XA")
    else Bucket(Or(dms.defaultBucket, "DMCM"), "DFMF_DEFAULT")
  }

  // ------------------------------------------------- rules as a reference

  datatype SignalKind = Crosses | Xa | Aerial | Clearances

  /** One threshold rule: a signal, its threshold and the answer it gives. */
  datatype Rule = Rule(kind: SignalKind, threshold: real, bucket: string, reason: string)

  function SignalOf(sig: Signals, kind: SignalKind): Cell {
    match kind
    case Crosses => sig.crosses
    case Xa => sig.xa
    case Aerial => sig.aerial
    case Clearances => sig.clr
  }

  predicate Met(rule: Rule, sig: Signals) {
    Fires(Reading(SignalOf(sig, rule.kind)), rule.threshold)
  }

  /** The plain-defender rules, in the order they are tried. */
  function DfRules(cfg: Config): seq<Rule> {
    var ds := cfg.dfSplit;
    [ Rule(Aerial, Or(ds.cbAerial, 55.0), "CB", "DF_CB_AERIAL"),
      Rule(Clearances, Or(ds.cbClr, 4.0), "CB", "DF_CB_CLEARANCES"),
      Rule(Crosses, Or(ds.fbCrosses, 1.2), "FB", "DF_FB_CROSSES"),
      Rule(Xa, Or(ds.fbXa, 0.08), "FB", "DF_FB_XA") ]
  }

  /** The defender-midfielder rules, in the order they are tried. */
  function DfMfRules(cfg: Config): seq<Rule> {
    var dms := cfg.dfmfSplit;
    [ Rule(Crosses, Or(dms.fbCrosses, 1.0), "FB", "DFMF_FB_CROSSES"),
      Rule(Xa, Or(dms.fbXa, 0.06), "FB", "DFMF_FB_XA") ]
  }

  /** The answer of the first rule met, or the fallback when none is. */
  function FirstMet(rules: seq<Rule>, sig: Signals, fallback: Bucket): (r: Bucket)
    ensures r == fallback || exists k :: 0 <= k < |rules| && r == Bucket(rules[k].bucket, rules[k].reason)
  {
    if rules == [] then fallback
    else if Met(rules[0], sig) then Bucket(rules[0].bucket, rules[0].reason)
    else
      var r := FirstMet(rules[1..], sig, fallback);
      assert r != fallback ==> exists k :: 1 <= k < |rules| && r == Bucket(rules[k].bucket, rules[k].reason) by {
        if r != fallback {
          var k :| 0 <= k < |rules[1..]| && r == Bucket(rules[1..][k].bucket, rules[1..][k].reason);
          assert rules[1..][k] == rules[k + 1];
        }
      }
      r
  }

  /** The first rule met decides; with none met, the fallback does. */
  lemma {:induction false} FirstMetSpec(rules: seq<Rule>, sig: Signals, fallback: Bucket, k: nat)
    requires k < |rules| && Met(rules[k], sig)
    requires forall j :: 0 <= j < k ==> !Met(rules[j], sig)
    ensures FirstMet(rules, sig, fallback) == Bucket(rules[k].bucket, rules[k].reason)
  {
    if k > 0 {
      assert !Met(rules[0], sig);
      FirstMetSpec(rules[1..], sig, fallback, k - 1);
    }
  }

  lemma {:induction false} FirstMetNone(rules: seq<Rule>, sig: Signals, fallback: Bucket)
    requires forall j :: 0 <= j < |rules| ==> !Met(rules[j], sig)
    ensures FirstMet(rules, sig, fallback) == fallback
  {
    if rules != [] {
      assert !Met(rules[0], sig);
      FirstMetNone(rules[1..], sig, fallback);
    }
  }

  /** Plain defenders follow their rules in order, then the configured fallback. */
  lemma InferDf(posRaw: Option<string>, sig: Signals, cfg: Config)
    requires !Contains(NormalizePos(posRaw), "GK") && Base(cfg, NormalizePos(posRaw)) == "DF"
    ensures Infer(posRaw, sig, cfg) ==
      FirstMet(DfRules(cfg), sig, Bucket(Or(cfg.dfSplit.defaultBucket, "CB"), "DF_DEFAULT"))
  {
    BaseNamesDiffer();
    assert Infer(posRaw, sig, cfg) == DfBucket(sig, cfg.dfSplit);
    DfBucketRules(sig, cfg);
  }

  lemma DfBucketRules(sig: Signals, cfg: Config)
    ensures DfBucket(sig, cfg.dfSplit) ==
      FirstMet(DfRules(cfg), sig, Bucket(Or(cfg.dfSplit.defaultBucket, "CB"), "DF_DEFAULT"))
  {
    var rules := DfRules(cfg);
    var fallback := Bucket(Or(cfg.dfSplit.defaultBucket, "CB"), "DF_DEFAULT");
    if Met(rules[0], sig) {
      FirstMetSpec(rules, sig, fallback, 0);
    } else if Met(rules[1], sig) {
      FirstMetSpec(rules, sig, fallback, 1);
    } else if Met(rules[2], sig) {
      FirstMetSpec(rules, sig, fallback, 2);
    } else if Met(rules[3], sig) {
      FirstMetSpec(rules, sig, fallback, 3);
    } else {
      FirstMetNone(rules, sig, fallback);
    }
  }

  /** The two defender bases differ from each fixed base and from each other. */
  lemma BaseNamesDiffer()
    ensures "DF" != "FW" && "DF" != "MFFW" && "DF" != "FWMF" && "DF" != "MF" && "DF" != "MFDF"
    ensures "DFMF" != "FW" && "DFMF" != "MFFW" && "DFMF" != "FWMF" && "DFMF" != "MF" && "DFMF" != "MFDF"
    ensures "DFMF" != "DF"
  {
  }

  /** Defender-midfielders follow their rules in order, then the configured fallback. */
  lemma InferDfMf(posRaw: Option<string>, sig: Signals, cfg: Config)
    requires !Contains(NormalizePos(posRaw), "GK") && Base(cfg, NormalizePos(posRaw)) == "DFMF"
    ensures Infer(posRaw, sig, cfg) ==
      FirstMet(DfMfRules(cfg), sig, Bucket(Or(cfg.dfmfSplit.defaultBucket, "DMCM"), "DFMF_DEFAULT"))
  {
    BaseNamesDiffer();
    assert Infer(posRaw, sig, cfg) == DfMfBucket(sig, cfg.dfmfSplit);
    DfMfBucketRules(sig, cfg);
  }

  lemma DfMfBucketRules(sig: Signals, cfg: Config)
    ensures DfMfBucket(sig, cfg.dfmfSplit) ==
      FirstMet(DfMfRules(cfg), sig, Bucket(Or(cfg.dfmfSplit.defaultBucket, "DMCM"), "DFMF_DEFAULT"))
  {
    var rules := DfMfRules(cfg);
    var fallback := Bucket(Or(cfg.dfmfSplit.defaultBucket, "DMCM"), "DFMF_DEFAULT");
    if Met(rules[0], sig) {
      FirstMetSpec(rules, sig, fallback, 0);
    } else if Met(rules[1], sig) {
      FirstMetSpec(rules, sig, fallback, 1);
    } else {
      FirstMetNone(rules, sig, fallback);
    }
  }

  /** A position containing "GK" is a goalkeeper, whatever the tables and signals say. */
  lemma InferGoalkeeper(posRaw: Option<string>, sig: Signals, cfg: Config)
    requires Contains(NormalizePos(posRaw), "GK")
    ensures Infer(posRaw, sig, cfg) == Bucket("GK", "POS_HAS_GK")
  {
  }

  /** The table lookup prefers `pos_exact`, then `pos_combo`, skipping empty entries. */
  lemma BaseLookup(cfg: Config, pos: string)
    ensures var b := Base(cfg, pos);
      && (pos in cfg.posExact && cfg.posExact[pos] != "" ==> b == cfg.posExact[pos])
      && ((pos !in cfg.posExact || cfg.posExact[pos] == "") && pos in cfg.posCombo && cfg.posCombo[pos] != "" ==>
            b == cfg.posCombo[pos])
      && (b == "" <==> (pos !in cfg.posExact || cfg.posExact[pos] == "") && (pos !in cfg.posCombo || cfg.posCombo[pos] == ""))
  {
  }

  /** The fixed answers for forwards and midfielders. */
  lemma InferFixed(posRaw: Option<string>, sig: Signals, cfg: Config)
    requires !Contains(NormalizePos(posRaw), "GK")
    ensures var base := Base(cfg, NormalizePos(posRaw)); var r := Infer(posRaw, sig, cfg);
      && (base == "FW" ==> r == Bucket("CF", "POS_FW_ONLY"))
      && (base == "MFFW" || base == "FWMF" ==> r == Bucket("WIDE", "POS_MF_FW"))
      && (base == "MF" ==> r == Bucket("DMCM", "POS_MF_ONLY"))
      && (base == "MFDF" ==> r == Bucket("DMCM", "POS_MF_DF"))
  {
  }

  /** Any other base is OTHER, with the base in the reason code when there is one. */
  lemma InferOther(posRaw: Option<string>, sig: Signals, cfg: Config)
    requires !Contains(NormalizePos(posRaw), "GK")
    requires Base(cfg, NormalizePos(posRaw)) !in {"FW", "MFFW", "FWMF", "MF", "MFDF", "DF", "DFMF"}
    ensures var base := Base(cfg, NormalizePos(posRaw));
      Infer(posRaw, sig, cfg) == Bucket("OTHER", if base == "" then "POS_UNKNOWN" else "POS_" + base)
  {
  }

  /** The bucket is one of the seven, or a configured fallback. */
  lemma InferBucketRange(posRaw: Option<string>, sig: Signals, cfg: Config)
    ensures Infer(posRaw, sig, cfg).bucket in
      {"GK", "CB", "FB", "DMCM", "WIDE", "CF", "OTHER",
       Or(cfg.dfSplit.defaultBucket, "CB"), Or(cfg.dfmfSplit.defaultBucket, "DMCM")}
  {
  }

  /** A rule whose signal is missing is never the one that decides. */
  lemma MissingSignalNeverFires(posRaw: Option<string>, sig: Signals, cfg: Config, rule: Rule)
    requires rule in DfRules(cfg) + DfMfRules(cfg)
    requires Reading(SignalOf(sig, rule.kind)).None?
    ensures Infer(posRaw, sig, cfg).reason != rule.reason
  {
    var pos := NormalizePos(posRaw);
    var base := Base(cfg, pos);
    BaseNamesDiffer();
    if !Contains(pos, "GK") && base == "DF" {
      assert Infer(posRaw, sig, cfg) == DfBucket(sig, cfg.dfSplit);
      DfMissing(sig, cfg, rule);
    } else if !Contains(pos, "GK") && base == "DFMF" {
      assert Infer(posRaw, sig, cfg) == DfMfBucket(sig, cfg.dfmfSplit);
      DfMfMissing(sig, cfg, rule);
    } else {
      InferPosReason(posRaw, sig, cfg);
      RuleReasonsD(cfg, rule);
    }
  }

  /** Every threshold rule's reason code starts with "DF". */
  lemma RuleReasonsD(cfg: Config, rule: Rule)
    requires rule in DfRules(cfg) + DfMfRules(cfg)
    ensures |rule.reason| > 0 && rule.reason[0] == 'D'
  {
  }

  /** Outside the defender splits every reason code starts with "POS_". */
  lemma InferPosReason(posRaw: Option<string>, sig: Signals, cfg: Config)
    requires Contains(NormalizePos(posRaw), "GK") || Base(cfg, NormalizePos(posRaw)) !in {"DF", "DFMF"}
    ensures var r := Infer(posRaw, sig, cfg).reason; |r| > 0 && r[0] == 'P'
  {
    var base := Base(cfg, NormalizePos(posRaw));
    if base != "" {
      assert ("POS_" + base)[0] == 'P';
    }
  }

  lemma DfMissing(sig: Signals, cfg: Config, rule: Rule)
    requires rule in DfRules(cfg) + DfMfRules(cfg)
    requires Reading(SignalOf(sig, rule.kind)).None?
    ensures DfBucket(sig, cfg.dfSplit).reason != rule.reason
  {
  }

  lemma DfMfMissing(sig: Signals, cfg: Config, rule: Rule)
    requires rule in DfRules(cfg) + DfMfRules(cfg)
    requires Reading(SignalOf(sig, rule.kind)).None?
    ensures DfMfBucket(sig, cfg.dfmfSplit).reason != rule.reason
  {
  }
}
