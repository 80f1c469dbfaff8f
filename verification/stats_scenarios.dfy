/**
 Worked inputs for the GCOS statistic under an example three-tier table
 (relative 4 % / 10 % / 20 %, absolute 0.02 / 0.03 / 0.06). The values are
 illustrative; the table the code imports is not part of this model.
 */
module StatsScenarios {
  import opened Wrappers
  import opened Stats

  function ExampleTiers(): TierTable
  {
    map["goal" := Tier(0.04, 0.02), "breakthrough" := Tier(0.10, 0.03), "threshold" := Tier(0.20, 0.06)]
  }

  function ExampleCriteria(): CriterionTable
  {
    map["od550aer" := ExampleTiers()]
  }

  /** The per-position counts of a two-position input, position by position. */
  lemma CountsOfTwo(o0: Option<real>, o1: Option<real>, m0: Option<real>, m1: Option<real>, t: Tier)
    ensures CountPresent([o0, o1], [m0, m1])
         == (if o0.Some? && m0.Some? then 1 else 0) + (if o1.Some? && m1.Some? then 1 else 0)
    ensures CountPresentCompliant([o0, o1], [m0, m1], t)
         == (if o0.Some? && m0.Some? && Compliant(Pair(o0.value, m0.value), t) then 1 else 0)
          + (if o1.Some? && m1.Some? && Compliant(Pair(o1.value, m1.value), t) then 1 else 0)
  {
    assert [o0, o1][..1] == [o0];
    assert [m0, m1][..1] == [m0];
    assert [o0][..0] == [] && [m0][..0] == [];
  }

  /** Under the example table a result is read off the per-position counts
      of the three tiers. */
  lemma ExampleOutcome(obs: seq<Option<real>>, model: seq<Option<real>>)
    requires |obs| == |model| && CountPresent(obs, model) > 0
    ensures var r := GcosPercentages(ExampleCriteria(), "od550aer", obs, model);
      var n := CountPresent(obs, model);
      && r.Ok? && r.value.Keys == {"goal", "breakthrough", "threshold"}
      && r.value["goal"] == Share(CountPresentCompliant(obs, model, Tier(0.04, 0.02)), n)
      && r.value["breakthrough"] == Share(CountPresentCompliant(obs, model, Tier(0.10, 0.03)), n)
      && r.value["threshold"] == Share(CountPresentCompliant(obs, model, Tier(0.20, 0.06)), n)
  {
    var c := ExampleCriteria();
    assert "goal" in c["od550aer"];
    KeptCounts(obs, model, Tier(0.04, 0.02));
    GcosFractionIsCompliantShare(c, "od550aer", obs, model, "goal");
    GcosFractionIsCompliantShare(c, "od550aer", obs, model, "breakthrough");
    GcosFractionIsCompliantShare(c, "od550aer", obs, model, "threshold");
  }

  lemma Halves()
    ensures Share(1, 2) == 0.5 && Share(2, 2) == 1.0 && Share(1, 1) == 1.0
  {
  }

  /** 1.2 against 1.0: relative errors 1/6 and 1/5, absolute error 0.2. */
  lemma TwentyPercentPair()
    ensures !Compliant(Pair(1.0, 1.2), Tier(0.04, 0.02))
    ensures !Compliant(Pair(1.0, 1.2), Tier(0.10, 0.03))
    ensures Compliant(Pair(1.0, 1.2), Tier(0.20, 0.06))
  {
    assert AbsDiff(Pair(1.0, 1.2)) == 0.2;
  }

  /** Model 0.02 and 0.03 against zero observations. */
  lemma ZeroObservationPairs()
    ensures Compliant(Pair(0.0, 0.02), Tier(0.04, 0.02))
    ensures !Compliant(Pair(0.0, 0.03), Tier(0.04, 0.02))
    ensures Compliant(Pair(0.0, 0.02), Tier(0.10, 0.03)) && Compliant(Pair(0.0, 0.03), Tier(0.10, 0.03))
    ensures Compliant(Pair(0.0, 0.02), Tier(0.20, 0.06)) && Compliant(Pair(0.0, 0.03), Tier(0.20, 0.06))
  {
    assert AbsDiff(Pair(0.0, 0.02)) == 0.02;
    assert AbsDiff(Pair(0.0, 0.03)) == 0.03;
  }

  /** A 20 % model error on one of two pairs fails "goal" and
      "breakthrough" for that pair but meets "threshold". */
  lemma TwentyPercentError(obs: seq<Option<real>>, model: seq<Option<real>>)
    requires obs == [Some(1.0), Some(1.0)] && model == [Some(1.2), Some(1.0)]
    ensures var r := GcosPercentages(ExampleCriteria(), "od550aer", obs, model);
      && r.Ok? && r.value.Keys == {"goal", "breakthrough", "threshold"}
      && r.value["goal"] == 0.5 && r.value["breakthrough"] == 0.5 && r.value["threshold"] == 1.0
  {
    TwentyPercentPair();
    assert AbsDiff(Pair(1.0, 1.0)) == 0.0;
    CountsOfTwo(Some(1.0), Some(1.0), Some(1.2), Some(1.0), Tier(0.04, 0.02));
    CountsOfTwo(Some(1.0), Some(1.0), Some(1.2), Some(1.0), Tier(0.10, 0.03));
    CountsOfTwo(Some(1.0), Some(1.0), Some(1.2), Some(1.0), Tier(0.20, 0.06));
    ExampleOutcome(obs, model);
    Halves();
  }


  /** A pair with a missing observation is ignored: the remaining pair
      agrees exactly and every tier reports 1. */
  lemma MissingObservationIgnored(obs: seq<Option<real>>, model: seq<Option<real>>)
    requires obs == [None, Some(1.0)] && model == [Some(1.0), Some(1.0)]
    ensures var r := GcosPercentages(ExampleCriteria(), "od550aer", obs, model);
      && r.Ok? && r.value.Keys == {"goal", "breakthrough", "threshold"}
      && r.value["goal"] == 1.0 && r.value["breakthrough"] == 1.0 && r.value["threshold"] == 1.0
  {
    assert AbsDiff(Pair(1.0, 1.0)) == 0.0;
    CountsOfTwo(None, Some(1.0), Some(1.0), Some(1.0), Tier(0.04, 0.02));
    CountsOfTwo(None, Some(1.0), Some(1.0), Some(1.0), Tier(0.10, 0.03));
    CountsOfTwo(None, Some(1.0), Some(1.0), Some(1.0), Tier(0.20, 0.06));
    ExampleOutcome(obs, model);
    Halves();
  }


  /** Zero observations make the relative-to-observation ratio infinite;
      the absolute bound alone decides, inclusive of its end point. */
  lemma ZeroObservationsUseAbsoluteBound(obs: seq<Option<real>>, model: seq<Option<real>>)
    requires obs == [Some(0.0), Some(0.0)] && model == [Some(0.02), Some(0.03)]
    ensures var r := GcosPercentages(ExampleCriteria(), "od550aer", obs, model);
      && r.Ok? && r.value.Keys == {"goal", "breakthrough", "threshold"}
      && r.value["goal"] == 0.5 && r.value["breakthrough"] == 1.0 && r.value["threshold"] == 1.0
  {
    ZeroObservationPairs();
    CountsOfTwo(Some(0.0), Some(0.0), Some(0.02), Some(0.03), Tier(0.04, 0.02));
    CountsOfTwo(Some(0.0), Some(0.0), Some(0.02), Some(0.03), Tier(0.10, 0.03));
    CountsOfTwo(Some(0.0), Some(0.0), Some(0.02), Some(0.03), Tier(0.20, 0.06));
    ExampleOutcome(obs, model);
    Halves();
  }


  /** With every pair missing, the division by the kept count fails. */
  lemma AllMissingDividesByZero()
    ensures GcosPercentages(ExampleCriteria(), "od550aer", [None, Some(1.0)], [Some(1.0), None])
         == Err(DivisionByZero)
  {
    assert "goal" in ExampleTiers();
  }

  /** A variable absent from the table is a lookup error. */
  lemma UnknownVariableRejected()
    ensures GcosPercentages(ExampleCriteria(), "concpm10", [Some(1.0)], [Some(1.0)])
         == Err(UnknownVariable("concpm10"))
  {
  }
}
