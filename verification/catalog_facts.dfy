/** Integrity properties of the fixed catalog: the facts about the data that
    the engine's behaviour depends on (unique keys, phase windows, option
    shapes, the badge thresholds). */
module CatalogFacts {
  import opened Types
  import opened Catalog

  /** The phase tags of `cat`, in catalog order. */
  function PhasesOf(cat: seq<Scenario>): (r: seq<Phase>)
    ensures |r| == |cat|
    ensures forall i :: 0 <= i < |cat| ==> r[i] == cat[i].phase
  {
    seq(|cat|, i requires 0 <= i < |cat| => cat[i].phase)
  }

  /** Number of occurrences of `p` in `phases`. */
  function Count(phases: seq<Phase>, p: Phase): nat
  {
    if phases == [] then 0
    else (if phases[0] == p then 1 else 0) + Count(phases[1..], p)
  }

  /** Ten scenarios with non-empty, pairwise-distinct ids and titles, so keying
      the "already played" set on titles never confuses two scenarios; the
      scenario at position i is written for the phase of turn i + 1. */
  lemma ScenarioKeys()
    ensures |Scenarios| == 10
    ensures forall i, j :: 0 <= i < j < |Scenarios| ==>
      Scenarios[i].id != Scenarios[j].id && Scenarios[i].title != Scenarios[j].title
    ensures forall i :: 0 <= i < |Scenarios| ==>
      Scenarios[i].id != "" && Scenarios[i].title != ""
    ensures forall i :: 0 <= i < |Scenarios| ==> Scenarios[i].phase == PhaseWindow(i + 1)
  {
    ScenarioIds();
    ScenarioTitles();
    ScenarioPhases();
  }

  /** Where the catalog facts are split: the key and option facts are proved
      for the scenarios before this position and from it separately. Each is
      one fact; the split only keeps each proof small. */
  const Half := 5

  lemma ScenarioIds()
    ensures |Scenarios| == 10
    ensures forall i, j :: 0 <= i < j < |Scenarios| ==> Scenarios[i].id != Scenarios[j].id
    ensures forall i :: 0 <= i < |Scenarios| ==> Scenarios[i].id != ""
  {
    EarlyIdsAreUnique();
    LateIdsAreUnique();
  }

  lemma EarlyIdsAreUnique()
    ensures |Scenarios| == 10
    ensures forall i, j :: 0 <= i < Half && i < j < |Scenarios| ==> Scenarios[i].id != Scenarios[j].id
  {
  }

  lemma LateIdsAreUnique()
    ensures forall i, j :: Half <= i < j < |Scenarios| ==> Scenarios[i].id != Scenarios[j].id
    ensures forall i :: 0 <= i < |Scenarios| ==> Scenarios[i].id != ""
  {
  }

  lemma ScenarioTitles()
    ensures forall i, j :: 0 <= i < j < |Scenarios| ==> Scenarios[i].title != Scenarios[j].title
    ensures forall i :: 0 <= i < |Scenarios| ==> Scenarios[i].title != ""
  {
    EarlyTitlesAreUnique();
    LateTitlesAreUnique();
  }

  lemma EarlyTitlesAreUnique()
    ensures forall i, j :: 0 <= i < Half && i < j < |Scenarios| ==> Scenarios[i].title != Scenarios[j].title
  {
  }

  lemma LateTitlesAreUnique()
    ensures forall i, j :: Half <= i < j < |Scenarios| ==> Scenarios[i].title != Scenarios[j].title
    ensures forall i :: 0 <= i < |Scenarios| ==> Scenarios[i].title != ""
  {
  }

  lemma ScenarioPhases()
    ensures forall i :: 0 <= i < |Scenarios| ==> Scenarios[i].phase == PhaseWindow(i + 1)
  {
  }

  /** The phase of turns 1 to 10, one entry per turn. */
  const TurnWindows := [Technical, Technical, Regional, Regional, Regional, Policy, Policy, Policy, Global, Global]

  /** Two technical, three regional, three policy and two global scenarios,
      and no crisis scenario: exactly the lengths of the turn windows. */
  lemma PhaseCounts()
    ensures Count(PhasesOf(Scenarios), Technical) == 2
    ensures Count(PhasesOf(Scenarios), Regional) == 3
    ensures Count(PhasesOf(Scenarios), Policy) == 3
    ensures Count(PhasesOf(Scenarios), Global) == 2
    ensures Count(PhasesOf(Scenarios), Crisis) == 0
  {
    assert PhasesOf(Scenarios) == TurnWindows;
    WindowLengths();
  }

  /** The turn windows are 2, 3, 3 and 2 turns long. */
  lemma WindowLengths()
    ensures forall i :: 0 <= i < |TurnWindows| ==> TurnWindows[i] == PhaseWindow(i + 1)
    ensures Count(TurnWindows, Technical) == 2 && Count(TurnWindows, Regional) == 3
    ensures Count(TurnWindows, Policy) == 3 && Count(TurnWindows, Global) == 2
    ensures Count(TurnWindows, Crisis) == 0
  {
    WindowsMatchTurns();
    EarlyWindowCounts();
    LateWindowCounts();
    NoCrisisWindow();
  }

  lemma WindowsMatchTurns()
    ensures forall i :: 0 <= i < |TurnWindows| ==> TurnWindows[i] == PhaseWindow(i + 1)
  {
  }

  /** The counts of a concatenation add up. */
  lemma {:induction false} CountAppend(a: seq<Phase>, b: seq<Phase>, p: Phase)
    ensures Count(a + b, p) == Count(a, p) + Count(b, p)
    decreases |a|
  {
    if a != [] {
      assert (a + b)[1..] == a[1..] + b;
      CountAppend(a[1..], b, p);
    } else {
      assert a + b == b;
    }
  }

  // The window counts are one fact proved in three parts; the split only
  // keeps each proof small.

  lemma EarlyWindowCounts()
    ensures Count(TurnWindows, Technical) == 2 && Count(TurnWindows, Regional) == 3
  {
    WindowsSplit();
  }

  lemma LateWindowCounts()
    ensures Count(TurnWindows, Policy) == 3 && Count(TurnWindows, Global) == 2
  {
    WindowsSplit();
  }

  lemma NoCrisisWindow()
    ensures Count(TurnWindows, Crisis) == 0
  {
    WindowsSplit();
  }

  /** The count of every phase in the windows, from the counts of the
      leading two-turn window and the remaining eight turns. */
  lemma WindowsSplit()
    ensures forall p :: (Count(TurnWindows, p) ==
      Count([Technical, Technical, Regional, Regional, Regional], p)
      + Count([Policy, Policy, Policy, Global, Global], p))
  {
    var a := [Technical, Technical, Regional, Regional, Regional];
    var b := [Policy, Policy, Policy, Global, Global];
    assert TurnWindows == a + b;
    forall p ensures Count(TurnWindows, p) == Count(a, p) + Count(b, p) {
      CountAppend(a, b, p);
    }
  }

  /** Every scenario offers at least two options with distinct ids, no option
      names the same metric twice, and no option requires a badge. */
  lemma OptionShapes()
    ensures forall i :: 0 <= i < |Scenarios| ==> |Scenarios[i].options| >= 2
    ensures forall i, a, b :: 0 <= i < |Scenarios| && 0 <= a < b < |Scenarios[i].options| ==>
      Scenarios[i].options[a].id != Scenarios[i].options[b].id
    ensures forall i, a :: 0 <= i < |Scenarios| && 0 <= a < |Scenarios[i].options| ==>
      Scenarios[i].options[a].requiredBadge.None? &&
      DistinctMetrics(Scenarios[i].options[a].impacts)
  {
    OptionCounts();
    OptionIds();
    OptionImpacts();
  }

  lemma OptionCounts()
    ensures forall i :: 0 <= i < |Scenarios| ==> |Scenarios[i].options| >= 2
  {
  }

  lemma OptionIds()
    ensures forall i, a, b :: 0 <= i < |Scenarios| && 0 <= a < b < |Scenarios[i].options| ==>
      Scenarios[i].options[a].id != Scenarios[i].options[b].id
  {
  }

  lemma OptionImpacts()
    ensures forall i, a :: 0 <= i < |Scenarios| && 0 <= a < |Scenarios[i].options| ==>
      Scenarios[i].options[a].requiredBadge.None? &&
      DistinctMetrics(Scenarios[i].options[a].impacts)
  {
    OptionImpactsUpTo();
    OptionImpactsFrom();
  }

  lemma OptionImpactsUpTo()
    ensures forall i, a :: 0 <= i < Half && 0 <= a < |Scenarios[i].options| ==>
      Scenarios[i].options[a].requiredBadge.None? &&
      DistinctMetrics(Scenarios[i].options[a].impacts)
  {
  }

  lemma OptionImpactsFrom()
    ensures forall i, a :: Half <= i < |Scenarios| && 0 <= a < |Scenarios[i].options| ==>
      Scenarios[i].options[a].requiredBadge.None? &&
      DistinctMetrics(Scenarios[i].options[a].impacts)
  {
  }

  /** No metric is the target of two changes in `impacts`. */
  predicate DistinctMetrics(impacts: seq<MetricChange>)
  {
    forall a, b :: 0 <= a < b < |impacts| ==> impacts[a].metric != impacts[b].metric
  }

  /** Thirteen badges with pairwise-distinct ids. */
  lemma BadgeKeys()
    ensures |Badges| == 13
    ensures forall i, j :: 0 <= i < j < |Badges| ==> Badges[i].id != Badges[j].id
  {
  }

  /** The starting snapshot is in range, every index is 50, none of the four
      failure thresholds is reached and no badge condition holds. */
  lemma InitialMetricsAreQuiet()
    ensures InRange(InitialMetrics)
    ensures forall k :: Get(InitialMetrics, k) == 50
    ensures InitialMetrics.stability > 0 && InitialMetrics.trust > 0
    ensures InitialMetrics.openness > 10 && InitialMetrics.equity > 10
    ensures forall i :: 0 <= i < |Badges| ==> !Holds(Badges[i].condition, InitialMetrics)
  {
    NoBadgeHolds(InitialMetrics);
  }

  /** No badge condition holds while every index is below 75 and some index
      is below 60: the lowest single and paired thresholds are 80 and 75, and
      `master_balancer` needs all five at 60. */
  lemma NoBadgeHolds(m: Metrics)
    requires m.stability < 75 && m.openness < 75 && m.trust < 75 && m.equity < 75 && m.innovation < 75
    requires m.stability < 60 || m.openness < 60 || m.trust < 60 || m.equity < 60 || m.innovation < 60
    ensures forall i :: 0 <= i < |Badges| ==> !Holds(Badges[i].condition, m)
  {
    forall i | 0 <= i < |Badges| ensures !Holds(Badges[i].condition, m) {
      if Badges[i].condition.AllAtLeast? {
        assert Badges[i].condition == AllAtLeast(60);
      }
    }
  }

  /** `digital_bridge` and `digital_divide_bridge` carry the same condition
      (equity at least 80), the former earlier in the catalog. */
  lemma DigitalBridgesShareRule()
    ensures Badges[4].id == "digital_bridge" && Badges[12].id == "digital_divide_bridge"
    ensures Badges[4].condition == Badges[12].condition == AtLeast(Equity, 80)
    ensures forall i :: 0 <= i < |Badges| && Badges[i].condition == AtLeast(Equity, 80) ==>
      i == 4 || i == 12
  {
  }

  /** When `master_balancer` holds (every index at least 60) none of the four
      metric failure thresholds can hold. */
  lemma BalancerIsHealthy(m: Metrics)
    requires Holds(Badges[5].condition, m)
    ensures Badges[5].id == "master_balancer"
    ensures m.stability > 0 && m.trust > 0 && m.openness > 10 && m.equity > 10
  {
    assert Get(m, Stability) >= 60 && Get(m, Trust) >= 60;
    assert Get(m, Openness) >= 60 && Get(m, Equity) >= 60;
  }

  /** On clamped metrics, `legendary_steward` (some index at least 100) holds
      exactly when some index is 100. */
  lemma LegendaryMeansPerfect(m: Metrics)
    requires InRange(m)
    ensures Badges[11].id == "legendary_steward"
    ensures Holds(Badges[11].condition, m) <==> exists k :: Get(m, k) == 100
  {
    if Holds(Badges[11].condition, m) {
      var k :| Get(m, k) >= 100;
      assert Get(m, k) == 100;
    }
  }
}
