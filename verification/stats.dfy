/**
 The GCOS compliance statistic of pyaerocom-plotting (`gcos_percentages`):
 the fraction of co-located observation/model pairs that meet the accuracy
 tiers ("goal", "breakthrough", "threshold") of the GCOS ECV requirements.

 Samples are reals; a missing sample (NaN in the source) is `None`.
 */
module Stats {
  import opened Wrappers

  /** The thresholds of one accuracy tier: a relative error (0.1 is 10 %)
      and an absolute error in the units of the variable. */
  datatype Tier = Tier(errPercent: real, absErr: real)

  /** Tier name to thresholds, for one variable. */
  type TierTable = map<string, Tier>

  /** Variable name to its tiers: the shape of the GCOS criterion table. */
  type CriterionTable = map<string, TierTable>

  /** An observation/model pair in which neither value is missing. */
  datatype Pair = Pair(obs: real, model: real)

  datatype GcosError =
    | UnknownVariable(name: string)  // the table lookup raises KeyError
    | DivisionByZero                 // tiers exist but no pair survived the filter
    | NoTiers                        // the result dictionary is empty

  /** The fraction of compliant pairs per tier name. */
  type Fractions = map<string, real>

  // ---------------------------------------------------------------------
  // Missing-value filter
  // ---------------------------------------------------------------------

  /** Floating-point addition in which `None` plays NaN: NaN absorbs. */
  function AddNaN(a: Option<real>, b: Option<real>): Option<real>
  {
    match (a, b)
    case (Some(x), Some(y)) => Some(x + y)
    case _ => None
  }

  /** The positions whose sum `obs[i] + model[i]` is not NaN, in
      increasing order: they are exactly the positions where both samples
      are present. */
  function ValidPositions(obs: seq<Option<real>>, model: seq<Option<real>>): (idx: seq<nat>)
    requires |obs| == |model|
    ensures forall k :: 0 <= k < |idx| ==> idx[k] < |obs| && obs[idx[k]].Some? && model[idx[k]].Some?
    ensures forall i :: 0 <= i < |obs| && obs[i].Some? && model[i].Some? ==> i in idx
    ensures forall k, l :: 0 <= k < l < |idx| ==> idx[k] < idx[l]
    ensures |idx| <= |obs|
    decreases |obs|
  {
    if |obs| == 0 then []
    else
      var n := |obs| - 1;
      ValidPositions(obs[..n], model[..n]) + (if AddNaN(obs[n], model[n]).Some? then [n] else [])
  }

  /** The pairs that survive the filter, in their original order. */
  function KeepValid(obs: seq<Option<real>>, model: seq<Option<real>>): (kept: seq<Pair>)
    requires |obs| == |model|
    decreases |obs|
  {
    if |obs| == 0 then []
    else
      var n := |obs| - 1;
      KeepValid(obs[..n], model[..n]) + Survivor(obs[n], model[n])
  }

  /** What one position contributes to the filtered pairs: its pair when the
      sum of its samples is not NaN, nothing otherwise. */
  function Survivor(o: Option<real>, m: Option<real>): seq<Pair>
  {
    match AddNaN(o, m)
    case Some(_) => [Pair(o.value, m.value)]
    case None => []
  }

  /** The filter keeps the pair at each valid position, in order: it is
      `obs[idx]`, `model[idx]` for the positions `idx` whose sum is not NaN. */
  lemma {:induction false} KeepValidSelectsValidPositions(obs: seq<Option<real>>, model: seq<Option<real>>)
    requires |obs| == |model|
    ensures var idx := ValidPositions(obs, model); var kept := KeepValid(obs, model);
      && |kept| == |idx|
      && forall k :: 0 <= k < |idx| ==> kept[k] == Pair(obs[idx[k]].value, model[idx[k]].value)
    decreases |obs|
  {
    if |obs| > 0 {
      var n := |obs| - 1;
      var front, mfront := obs[..n], model[..n];
      KeepValidSelectsValidPositions(front, model[..n]);
      var idx, idx' := ValidPositions(obs, model), ValidPositions(front, mfront);
      var kept, kept' := KeepValid(obs, model), KeepValid(front, mfront);
      assert idx == idx' + (if AddNaN(obs[n], model[n]).Some? then [n] else []);
      assert kept == kept' + Survivor(obs[n], model[n]);
      forall k | 0 <= k < |idx|
        ensures kept[k] == Pair(obs[idx[k]].value, model[idx[k]].value)
      {
        if k < |idx'| {
          assert idx[k] == idx'[k] < n;
          assert front[idx[k]] == obs[idx[k]] && mfront[idx[k]] == model[idx[k]];
        }
      }
    }
  }

  // ---------------------------------------------------------------------
  // The three tests of one tier
  // ---------------------------------------------------------------------

  /** `|obs - model|` */
  function AbsDiff(p: Pair): real
  {
    if p.obs < p.model then p.model - p.obs else p.obs - p.model
  }

  /** `absdiff / denom <= pct` in floating point, for `absdiff >= 0`: a zero
      denominator gives +inf or NaN, and neither compares below `pct`. The
      denominator is not made positive, so a negative one gives a negative
      ratio. */
  predicate RelativeWithin(absdiff: real, denom: real, pct: real)
  {
    denom != 0.0 && absdiff / denom <= pct
  }

  /** One pair meets a tier when the error relative to the model value,
      or relative to the observed value, or the absolute error is within
      the tier's bound. */
  predicate Compliant(p: Pair, t: Tier)
  {
    || RelativeWithin(AbsDiff(p), p.model, t.errPercent)
    || RelativeWithin(AbsDiff(p), p.obs, t.errPercent)
    || AbsDiff(p) <= t.absErr
  }

  /** Indices passing the relative-to-model test. */
  function ModelRelativeHits(kept: seq<Pair>, pct: real): set<nat>
  {
    set i: nat | i < |kept| && RelativeWithin(AbsDiff(kept[i]), kept[i].model, pct)
  }

  /** Indices passing the relative-to-observation test. */
  function ObsRelativeHits(kept: seq<Pair>, pct: real): set<nat>
  {
    set i: nat | i < |kept| && RelativeWithin(AbsDiff(kept[i]), kept[i].obs, pct)
  }

  /** Indices passing the absolute test. */
  function AbsoluteHits(kept: seq<Pair>, absErr: real): set<nat>
  {
    set i: nat | i < |kept| && AbsDiff(kept[i]) <= absErr
  }

  /** The de-duplicated concatenation of the three index lists: every index
      that appears in at least one of them, once. */
  function CompliantIndices(kept: seq<Pair>, t: Tier): set<nat>
  {
    var byModel := ModelRelativeHits(kept, t.errPercent);
    var byObs := ObsRelativeHits(kept, t.errPercent);
    var byAbs := AbsoluteHits(kept, t.absErr);
    set i: nat | i < |kept| && (i in byModel || i in byObs || i in byAbs)
  }

  /** An index is among the compliant indices exactly when its pair meets
      the tier: the union of the three tests. */
  lemma CompliantIndicesMeaning(kept: seq<Pair>, t: Tier)
    ensures forall i: nat :: i in CompliantIndices(kept, t) <==> i < |kept| && Compliant(kept[i], t)
  {
  }

  /** Reference count: the number of compliant pairs, one pair at a time. */
  function CountCompliant(kept: seq<Pair>, t: Tier): (c: nat)
    ensures c <= |kept|
    decreases |kept|
  {
    if |kept| == 0 then 0
    else
      var n := |kept| - 1;
      CountCompliant(kept[..n], t) + (if Compliant(kept[n], t) then 1 else 0)
  }

  /** True division of two counts. */
  function Share(part: nat, whole: nat): real
    requires whole > 0
  {
    part as real / whole as real
  }

  /** The fraction reported for one tier: compliant indices over kept pairs. */
  function Fraction(kept: seq<Pair>, t: Tier): (f: real)
    requires |kept| > 0
    ensures 0.0 <= f <= 1.0
  {
    CompliantIndicesCount(kept, t);
    FractionBounds(|CompliantIndices(kept, t)|, |kept|);
    Share(|CompliantIndices(kept, t)|, |kept|)
  }

  /** A tier's fraction is 1 exactly when every kept pair meets it, and 0
      exactly when none does. */
  lemma FractionAllOrNothing(kept: seq<Pair>, t: Tier)
    requires |kept| > 0
    ensures Fraction(kept, t) == 1.0 <==> forall i :: 0 <= i < |kept| ==> Compliant(kept[i], t)
    ensures Fraction(kept, t) == 0.0 <==> forall i :: 0 <= i < |kept| ==> !Compliant(kept[i], t)
  {
    CompliantIndicesCount(kept, t);
    CountCompliantFull(kept, t);
    CountCompliantEmpty(kept, t);
    FractionBounds(|CompliantIndices(kept, t)|, |kept|);
  }

  // ---------------------------------------------------------------------
  // gcos_percentages
  // ---------------------------------------------------------------------

  /** The compliance fraction of every tier listed for `varName`, computed
      over the pairs in which neither sample is missing. */
  function GcosPercentages(criteria: CriterionTable, varName: string,
                           obs: seq<Option<real>>, model: seq<Option<real>>): (r: Result<Fractions, GcosError>)
    requires |obs| == |model|
    ensures r == Err(UnknownVariable(varName)) <==> varName !in criteria
    ensures r == Err(NoTiers) <==> varName in criteria && criteria[varName] == map[]
    ensures r == Err(DivisionByZero) <==>
      && varName in criteria && criteria[varName] != map[]
      && forall i :: 0 <= i < |obs| ==> obs[i].None? || model[i].None?
    ensures r.Err? ==> r.error == UnknownVariable(varName) || r.error == NoTiers || r.error == DivisionByZero
    ensures r.Ok? ==> varName in criteria && r.value.Keys == criteria[varName].Keys
    ensures r.Ok? ==> forall crit :: crit in r.value ==> 0.0 <= r.value[crit] <= 1.0
  {
    if varName !in criteria then Err(UnknownVariable(varName))
    else
      var tiers := criteria[varName];
      var kept := KeepValid(obs, model);
      NothingKeptIffAllMissing(obs, model);
      if tiers == map[] then Err(NoTiers)
      else if |kept| == 0 then Err(DivisionByZero)
      else Ok(map crit | crit in tiers :: Fraction(kept, tiers[crit]))
  }

  // ---------------------------------------------------------------------
  // Lemmas
  // ---------------------------------------------------------------------

  /** Nothing survives the filter exactly when every position has a
      missing sample. */
  lemma {:induction false} NothingKeptIffAllMissing(obs: seq<Option<real>>, model: seq<Option<real>>)
    requires |obs| == |model|
    ensures |KeepValid(obs, model)| == 0 <==> forall i :: 0 <= i < |obs| ==> obs[i].None? || model[i].None?
    decreases |obs|
  {
    if |obs| > 0 {
      var n := |obs| - 1;
      NothingKeptIffAllMissing(obs[..n], model[..n]);
      KeepValidLast(obs, model);
      assert forall i :: 0 <= i < n ==> obs[..n][i] == obs[i] && model[..n][i] == model[i];
    }
  }

  /** The set union of the three index lists has as many elements as the
      per-pair count says. */
  lemma {:induction false} CompliantIndicesCount(kept: seq<Pair>, t: Tier)
    ensures |CompliantIndices(kept, t)| == CountCompliant(kept, t)
    decreases |kept|
  {
    if |kept| == 0 {
      assert CompliantIndices(kept, t) == {};
    } else {
      var n := |kept| - 1;
      CompliantIndicesCount(kept[..n], t);
      CompliantIndicesLast(kept, t);
    }
  }

  /** The compliant indices of a sequence are those of its front, plus the
      last index when the last pair complies. */
  lemma CompliantIndicesLast(kept: seq<Pair>, t: Tier)
    requires |kept| > 0
    ensures var n := |kept| - 1;
      && n !in CompliantIndices(kept[..n], t)
      && CompliantIndices(kept, t)
           == CompliantIndices(kept[..n], t) + (if Compliant(kept[n], t) then {n} else {})
  {
    var n := |kept| - 1;
    var front := kept[..n];
    var extra: set<nat> := if Compliant(kept[n], t) then {n} else {};
    CompliantIndicesMeaning(kept, t);
    CompliantIndicesMeaning(front, t);
    forall i: nat
      ensures i in CompliantIndices(kept, t) <==> i in CompliantIndices(front, t) + extra
    {
      if i < n { assert front[i] == kept[i]; }
    }
  }

  /** The count equals the number of pairs exactly when every pair complies. */
  lemma {:induction false} CountCompliantFull(kept: seq<Pair>, t: Tier)
    ensures CountCompliant(kept, t) == |kept| <==> forall i :: 0 <= i < |kept| ==> Compliant(kept[i], t)
    decreases |kept|
  {
    if |kept| > 0 {
      var n := |kept| - 1;
      CountCompliantFull(kept[..n], t);
      assert forall i :: 0 <= i < n ==> kept[..n][i] == kept[i];
    }
  }

  /** The count is zero exactly when no pair complies. */
  lemma {:induction false} CountCompliantEmpty(kept: seq<Pair>, t: Tier)
    ensures CountCompliant(kept, t) == 0 <==> forall i :: 0 <= i < |kept| ==> !Compliant(kept[i], t)
    decreases |kept|
  {
    if |kept| > 0 {
      var n := |kept| - 1;
      CountCompliantEmpty(kept[..n], t);
      assert forall i :: 0 <= i < n ==> kept[..n][i] == kept[i];
    }
  }

  /** A count between zero and the total gives a ratio in [0, 1], equal to
      1 only for the full count and to 0 only for the empty one. */
  lemma FractionBounds(c: nat, n: nat)
    requires c <= n && n > 0
    ensures 0.0 <= Share(c, n) <= 1.0
    ensures Share(c, n) == 1.0 <==> c == n
    ensures Share(c, n) == 0.0 <==> c == 0
  {
  }

  // ---------------------------------------------------------------------
  // Properties of the statistic
  // ---------------------------------------------------------------------

  /** Reference count over the original positions: both samples present. */
  function CountPresent(obs: seq<Option<real>>, model: seq<Option<real>>): (c: nat)
    requires |obs| == |model|
    ensures c <= |obs|
    decreases |obs|
  {
    if |obs| == 0 then 0
    else
      var n := |obs| - 1;
      CountPresent(obs[..n], model[..n]) + (if obs[n].Some? && model[n].Some? then 1 else 0)
  }

  /** Reference count over the original positions: both samples present and
      the pair meets the tier. */
  function CountPresentCompliant(obs: seq<Option<real>>, model: seq<Option<real>>, t: Tier): (c: nat)
    requires |obs| == |model|
    ensures c <= CountPresent(obs, model)
    decreases |obs|
  {
    if |obs| == 0 then 0
    else
      var n := |obs| - 1;
      CountPresentCompliant(obs[..n], model[..n], t)
        + (if obs[n].Some? && model[n].Some? && Compliant(Pair(obs[n].value, model[n].value), t) then 1 else 0)
  }

  /** One step of the filter: the last position contributes its pair
      exactly when both samples are present. */
  lemma KeepValidLast(obs: seq<Option<real>>, model: seq<Option<real>>)
    requires |obs| == |model| && |obs| > 0
    ensures var n := |obs| - 1;
      KeepValid(obs, model) == KeepValid(obs[..n], model[..n]) + Survivor(obs[n], model[n])
  {
  }

  /** The compliant count of a sequence extended by one pair. */
  lemma CountCompliantAppend(kept: seq<Pair>, extra: seq<Pair>, t: Tier)
    requires |extra| <= 1
    ensures CountCompliant(kept + extra, t)
         == CountCompliant(kept, t) + (if |extra| == 1 && Compliant(extra[0], t) then 1 else 0)
  {
    if |extra| == 1 {
      assert (kept + extra)[..|kept|] == kept;
    } else {
      assert kept + extra == kept;
    }
  }

  /** Filtering then counting agrees with counting over the original
      positions. */
  lemma {:induction false} KeptCounts(obs: seq<Option<real>>, model: seq<Option<real>>, t: Tier)
    requires |obs| == |model|
    ensures |KeepValid(obs, model)| == CountPresent(obs, model)
    ensures CountCompliant(KeepValid(obs, model), t) == CountPresentCompliant(obs, model, t)
    decreases |obs|
  {
    if |obs| > 0 {
      var n := |obs| - 1;
      KeptCounts(obs[..n], model[..n], t);
      KeepValidLast(obs, model);
      CountCompliantAppend(KeepValid(obs[..n], model[..n]), Survivor(obs[n], model[n]), t);
    }
  }

  /** Every reported fraction is the number of positions where both samples
      are present and the pair meets the tier, over the number of positions
      where both samples are present. */
  lemma GcosFractionIsCompliantShare(criteria: CriterionTable, varName: string,
                                     obs: seq<Option<real>>, model: seq<Option<real>>, crit: string)
    requires |obs| == |model| && CountPresent(obs, model) > 0
    requires varName in criteria && crit in criteria[varName]
    ensures GcosPercentages(criteria, varName, obs, model).Ok?
    ensures GcosPercentages(criteria, varName, obs, model).value[crit]
         == Share(CountPresentCompliant(obs, model, criteria[varName][crit]), CountPresent(obs, model))
  {
    var t := criteria[varName][crit];
    KeptCounts(obs, model, t);
    CompliantIndicesCount(KeepValid(obs, model), t);
  }

  /** Series with the same length-n prefixes and last elements are equal
      in their filtered form once the prefixes filter alike. */
  lemma KeepValidSameLast(obs: seq<Option<real>>, model: seq<Option<real>>,
                          obs': seq<Option<real>>, model': seq<Option<real>>)
    requires |obs| == |model| > 0 && |obs'| == |model'| > 0
    requires obs[|obs| - 1] == obs'[|obs'| - 1] && model[|model| - 1] == model'[|model'| - 1]
    requires KeepValid(obs[..|obs| - 1], model[..|obs| - 1]) == KeepValid(obs'[..|obs'| - 1], model'[..|obs'| - 1])
    ensures KeepValid(obs, model) == KeepValid(obs', model')
  {
    KeepValidLast(obs, model);
    KeepValidLast(obs', model');
  }

  /** Inserting `x` at position `i` of `s`: the result minus its last
      element is `s` itself when `i` is the end, and otherwise the insertion
      into `s` minus its last element. */
  lemma InsertSplit<T>(s: seq<T>, i: nat, x: T)
    requires i <= |s|
    ensures var s' := s[..i] + [x] + s[i..];
      && |s'| == |s| + 1
      && (i == |s| ==> s'[..|s|] == s && s'[|s|] == x)
      && (i < |s| ==> s'[..|s|] == s[..|s| - 1][..i] + [x] + s[..|s| - 1][i..] && s'[|s|] == s[|s| - 1])
  {
    var s' := s[..i] + [x] + s[i..];
    if i < |s| {
      assert s'[..|s|] == s[..|s| - 1][..i] + [x] + s[..|s| - 1][i..];
    } else {
      assert s'[..|s|] == s;
    }
  }

  /** Inserting a pair with a missing sample anywhere changes nothing. */
  lemma {:induction false} KeepValidIgnoresMissing(obs: seq<Option<real>>, model: seq<Option<real>>,
                                                   i: nat, o: Option<real>, m: Option<real>)
    requires |obs| == |model| && i <= |obs|
    requires o.None? || m.None?
    ensures KeepValid(obs[..i] + [o] + obs[i..], model[..i] + [m] + model[i..]) == KeepValid(obs, model)
    decreases |obs|
  {
    var obs' := obs[..i] + [o] + obs[i..];
    var model' := model[..i] + [m] + model[i..];
    var n := |obs|;
    InsertSplit(obs, i, o);
    InsertSplit(model, i, m);
    if i == n {
      KeepValidLast(obs', model');
    } else {
      KeepValidIgnoresMissing(obs[..n - 1], model[..n - 1], i, o, m);
      KeepValidSameLast(obs', model', obs, model);
    }
  }

  /** A pair with NaN in either series has no influence on the result. */
  lemma MissingPairHasNoInfluence(criteria: CriterionTable, varName: string,
                                  obs: seq<Option<real>>, model: seq<Option<real>>,
                                  i: nat, o: Option<real>, m: Option<real>)
    requires |obs| == |model| && i <= |obs|
    requires o.None? || m.None?
    ensures GcosPercentages(criteria, varName, obs[..i] + [o] + obs[i..], model[..i] + [m] + model[i..])
         == GcosPercentages(criteria, varName, obs, model)
  {
    KeepValidIgnoresMissing(obs, model, i, o, m);
  }

  /** The observation series made of kept pairs, none missing. */
  function ObsOf(kept: seq<Pair>): seq<Option<real>>
  {
    seq(|kept|, k requires 0 <= k < |kept| => Some(kept[k].obs))
  }

  /** The model series made of kept pairs, none missing. */
  function ModelOf(kept: seq<Pair>): seq<Option<real>>
  {
    seq(|kept|, k requires 0 <= k < |kept| => Some(kept[k].model))
  }

  /** Filtering series without missing samples keeps every pair. */
  lemma {:induction false} KeepValidOfComplete(kept: seq<Pair>)
    ensures KeepValid(ObsOf(kept), ModelOf(kept)) == kept
    decreases |kept|
  {
    if |kept| > 0 {
      var n := |kept| - 1;
      KeepValidOfComplete(kept[..n]);
      assert ObsOf(kept)[..n] == ObsOf(kept[..n]);
      assert ModelOf(kept)[..n] == ModelOf(kept[..n]);
      assert kept == kept[..n] + [kept[n]];
    }
  }

  /** Running the statistic on the filtered pairs alone gives the same result
      as running it on the full series. */
  lemma FilteredInputGivesSameResult(criteria: CriterionTable, varName: string,
                                     obs: seq<Option<real>>, model: seq<Option<real>>)
    requires |obs| == |model|
    ensures var kept := KeepValid(obs, model);
      GcosPercentages(criteria, varName, ObsOf(kept), ModelOf(kept)) == GcosPercentages(criteria, varName, obs, model)
  {
    KeepValidOfComplete(KeepValid(obs, model));
  }

  /** Every pair meeting a stricter tier meets a looser one. */
  lemma LooserTierKeepsHits(kept: seq<Pair>, t1: Tier, t2: Tier)
    requires t1.errPercent <= t2.errPercent && t1.absErr <= t2.absErr
    ensures CompliantIndices(kept, t1) <= CompliantIndices(kept, t2)
  {
    CompliantIndicesMeaning(kept, t1);
    CompliantIndicesMeaning(kept, t2);
  }

  /** A sub-collection has no more members. */
  lemma {:induction false} SubsetCardinality(a: set<nat>, b: set<nat>)
    requires a <= b
    ensures |a| <= |b|
    decreases b
  {
    if a != {} {
      var x :| x in a;
      SubsetCardinality(a - {x}, b - {x});
    }
  }

  /** Raising a tier's relative or absolute bound never lowers its fraction. */
  lemma LooserTierNeverLowers(kept: seq<Pair>, t1: Tier, t2: Tier)
    requires |kept| > 0
    requires t1.errPercent <= t2.errPercent && t1.absErr <= t2.absErr
    ensures Fraction(kept, t1) <= Fraction(kept, t2)
  {
    LooserTierKeepsHits(kept, t1, t2);
    SubsetCardinality(CompliantIndices(kept, t1), CompliantIndices(kept, t2));
    ShareMonotone(|CompliantIndices(kept, t1)|, |CompliantIndices(kept, t2)|, |kept|);
  }

  lemma ShareMonotone(a: nat, b: nat, n: nat)
    requires a <= b && n > 0
    ensures Share(a, n) <= Share(b, n)
  {
  }

  /** With tiers ordered from strict to loose, the fractions are ordered too. */
  lemma TierOrderGivesOrderedFractions(criteria: CriterionTable, varName: string,
                                       obs: seq<Option<real>>, model: seq<Option<real>>,
                                       strict: string, loose: string)
    requires |obs| == |model| && exists i :: 0 <= i < |obs| && obs[i].Some? && model[i].Some?
    requires varName in criteria && strict in criteria[varName] && loose in criteria[varName]
    requires criteria[varName][strict].errPercent <= criteria[varName][loose].errPercent
    requires criteria[varName][strict].absErr <= criteria[varName][loose].absErr
    ensures GcosPercentages(criteria, varName, obs, model).Ok?
    ensures GcosPercentages(criteria, varName, obs, model).value[strict]
         <= GcosPercentages(criteria, varName, obs, model).value[loose]
  {
    var kept := KeepValid(obs, model);
    NothingKeptIffAllMissing(obs, model);
    LooserTierNeverLowers(kept, criteria[varName][strict], criteria[varName][loose]);
  }

  /** Identical, complete series meet every tier whose absolute bound is not
      negative: every fraction is 1. */
  lemma IdenticalSeriesFullyCompliant(criteria: CriterionTable, varName: string, obs: seq<Option<real>>)
    requires |obs| > 0 && forall i :: 0 <= i < |obs| ==> obs[i].Some?
    requires varName in criteria && criteria[varName] != map[]
    ensures GcosPercentages(criteria, varName, obs, obs).Ok?
    ensures forall crit :: crit in criteria[varName] && criteria[varName][crit].absErr >= 0.0 ==>
      GcosPercentages(criteria, varName, obs, obs).value[crit] == 1.0
  {
    var kept := KeepValid(obs, obs);
    KeepValidSelectsValidPositions(obs, obs);
    NothingKeptIffAllMissing(obs, obs);
    forall crit | crit in criteria[varName] && criteria[varName][crit].absErr >= 0.0
      ensures Fraction(kept, criteria[varName][crit]) == 1.0
    {
      var t := criteria[varName][crit];
      FractionAllOrNothing(kept, t);
      forall k | 0 <= k < |kept|
        ensures Compliant(kept[k], t)
      {
        assert AbsDiff(kept[k]) == 0.0;
      }
    }
  }

  /** A zero model value fails the relative-to-model test, but the pair can
      still comply through the other two tests. */
  lemma ZeroModelValue(p: Pair, t: Tier)
    requires p.model == 0.0
    ensures !RelativeWithin(AbsDiff(p), p.model, t.errPercent)
    ensures Compliant(p, t) <==> RelativeWithin(AbsDiff(p), p.obs, t.errPercent) || AbsDiff(p) <= t.absErr
  {
  }

  /** A zero observation fails the relative-to-observation test, but the
      pair can still comply through the other two tests. */
  lemma ZeroObservationValue(p: Pair, t: Tier)
    requires p.obs == 0.0
    ensures !RelativeWithin(AbsDiff(p), p.obs, t.errPercent)
    ensures Compliant(p, t) <==> RelativeWithin(AbsDiff(p), p.model, t.errPercent) || AbsDiff(p) <= t.absErr
  {
  }

  /** A negative denominator gives a ratio that is never positive, so it
      meets any non-negative relative bound. */
  lemma NegativeDenominatorPasses(absdiff: real, denom: real, pct: real)
    requires absdiff >= 0.0 && denom < 0.0 && pct >= 0.0
    ensures RelativeWithin(absdiff, denom, pct)
  {
  }
}
