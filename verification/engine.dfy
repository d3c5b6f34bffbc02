/** The game engine of the top-level controller (App.tsx): choosing the next
    scenario, applying a chosen option, ending the game, dismissing feedback
    and resetting. Every handler is a pure function from the state it reads to
    the state it writes. */
module Engine {
  import opened Types
  import opened Catalog
  import opened CatalogFacts

  /** Length of a term. */
  const MaxTurns := 10

  /** The text shown on the end screen for each reason. */
  function ReasonText(r: EndReason): string
  {
    match r
    case Continuing => ""
    case Collapse =>
      "CRITICAL FAILURE: The internet's core infrastructure has collapsed. Routing has failed globally."
    case LegitimacyLost =>
      "LEGITIMACY LOST: Stakeholders have abandoned the governance model. Nations are building separate internets."
    case Fragmentation =>
      "FRAGMENTATION ERROR: The internet has fractured into closed, censored silos. Global information flow has ceased."
    case DigitalDivide =>
      "DIGITAL DIVIDE COLLAPSE: Extreme inequality has caused developing nations to withdraw from the global network."
    case TermLimit => "Term limit reached. Reviewing your stewardship legacy."
    case NoMoreScenarios => "Simulation Complete: No more scenarios."
  }

  /** Log title used when the active scenario cannot be resolved. */
  const UnknownTitle := "Unknown"

  /** The state a playthrough starts in and returns to on reset. */
  const InitialState := GameState(
    InitialMetrics, 1, MaxTurns, [], [], None, Technical, false, None)

  // ---------------------------------------------------------------------------
  // Phase and scenario selection
  // ---------------------------------------------------------------------------

  /** Position of a phase in the progression; crisis lies outside it. */
  function Rank(p: Phase): nat
  {
    match p
    case Technical => 0
    case Regional => 1
    case Policy => 2
    case Global => 3
    case Crisis => 4
  }

  /** The phase for the coming turn: the current phase, overridden by
      regional past turn 2, policy past turn 5 and global past turn 8 (later
      overrides win). Up to turn 2 the current phase is kept, whatever it is. */
  function DerivePhase(current: Phase, turn: int): (r: Phase)
    ensures turn <= 2 ==> r == current
    ensures turn > 2 ==> r == PhaseWindow(turn)
    ensures r == Crisis ==> current == Crisis && turn <= 2
  {
    var afterRegional := if turn > 2 then Regional else current;
    var afterPolicy := if turn > 5 then Policy else afterRegional;
    if turn > 8 then Global else afterPolicy
  }

  /** Starting from the phase of the previous or the current turn, the derived
      phase is the window of the turn and never an earlier phase. */
  lemma DerivePhaseFollowsWindows(current: Phase, turn: int)
    requires current == PhaseWindow(turn - 1) || current == PhaseWindow(turn)
    ensures DerivePhase(current, turn) == PhaseWindow(turn)
    ensures Rank(current) <= Rank(DerivePhase(current, turn))
  {
  }

  /** The windows never move backwards as the turn grows. */
  lemma WindowsAreMonotone(t1: int, t2: int)
    requires t1 <= t2
    ensures Rank(PhaseWindow(t1)) <= Rank(PhaseWindow(t2))
    ensures PhaseWindow(t2) != Crisis
  {
  }

  /** Titles of the scenarios already resolved: the de-duplication key set,
      built from the log. */
  function UsedTitles(history: seq<LogEntry>): (r: set<string>)
    ensures forall i :: 0 <= i < |history| ==> history[i].title in r
    ensures forall t :: t in r ==> exists i :: 0 <= i < |history| && history[i].title == t
  {
    set i | 0 <= i < |history| :: history[i].title
  }

  /** A scenario may be offered: its title is unused and, when a phase is
      wanted, it has that phase. */
  predicate Eligible(s: Scenario, want: Option<Phase>, used: set<string>)
  {
    s.title !in used && (want.None? || s.phase == want.value)
  }

  /** Index of the first eligible scenario of `cat`, if any (the first element
      of the source's filtered list). */
  function FirstEligible(cat: seq<Scenario>, want: Option<Phase>, used: set<string>): (r: Option<nat>)
    ensures r.Some? ==> r.value < |cat| && Eligible(cat[r.value], want, used)
    ensures r.Some? ==> forall j :: 0 <= j < r.value ==> !Eligible(cat[j], want, used)
    ensures r.None? ==> forall j :: 0 <= j < |cat| ==> !Eligible(cat[j], want, used)
    decreases |cat|
  {
    if cat == [] then None
    else if Eligible(cat[0], want, used) then Some(0)
    else match FirstEligible(cat[1..], want, used)
      case Some(i) => Some(i + 1)
      case None => None
  }

  /** The scenario of `cat` to play next: the first unused one of phase `p`,
      else the first unused one of any phase, else none. */
  function NextScenario(cat: seq<Scenario>, p: Phase, used: set<string>): (r: Option<Scenario>)
    ensures r.Some? ==> r.value in cat && r.value.title !in used
    ensures r.None? <==> forall i :: 0 <= i < |cat| ==> cat[i].title in used
    ensures (exists i :: 0 <= i < |cat| && Eligible(cat[i], Some(p), used)) ==>
      exists k :: 0 <= k < |cat| && r == Some(cat[k]) && Eligible(cat[k], Some(p), used)
        && forall j :: 0 <= j < k ==> !Eligible(cat[j], Some(p), used)
    ensures (forall i :: 0 <= i < |cat| ==> !Eligible(cat[i], Some(p), used)) && r.Some? ==>
      exists k :: 0 <= k < |cat| && r == Some(cat[k]) && cat[k].title !in used
        && forall j :: 0 <= j < k ==> cat[j].title in used
  {
    match FirstEligible(cat, Some(p), used)
    case Some(i) => Some(cat[i])
    case None =>
      match FirstEligible(cat, None, used)
      case Some(i) =>
        assert forall j :: 0 <= j < i ==> !Eligible(cat[j], None, used);
        Some(cat[i])
      case None => None
  }

  /** Ends the game with `reason`; nothing else changes (`endGame`). */
  function EndGame(g: GameState, reason: EndReason): (r: GameState)
    ensures r.isGameOver && r.gameOverReason == Some(reason)
    ensures r.(isGameOver := g.isGameOver, gameOverReason := g.gameOverReason) == g
  {
    g.(isGameOver := true, gameOverReason := Some(reason))
  }

  /** `loadNextScenario`: activates the next unused scenario of `c` and
      records the derived phase; ends the game once every scenario has been
      played. */
  function LoadNextScenario(c: Content, g: GameState): (r: GameState)
    ensures r.(phase := g.phase, currentScenarioId := g.currentScenarioId,
               isGameOver := g.isGameOver, gameOverReason := g.gameOverReason) == g
    ensures (forall i :: 0 <= i < |c.scenarios| ==> c.scenarios[i].title in UsedTitles(g.history)) ==>
      r == g.(isGameOver := true, gameOverReason := Some(NoMoreScenarios))
    ensures (exists i :: 0 <= i < |c.scenarios| && c.scenarios[i].title !in UsedTitles(g.history)) ==>
      && r.currentScenarioId.Some?
      && r == g.(phase := DerivePhase(g.phase, g.turn), currentScenarioId := r.currentScenarioId)
      && exists i :: 0 <= i < |c.scenarios| && c.scenarios[i].id == r.currentScenarioId.value
                     && c.scenarios[i].title !in UsedTitles(g.history)
    ensures var next := NextScenario(c.scenarios, DerivePhase(g.phase, g.turn), UsedTitles(g.history));
      next.Some? ==> r.currentScenarioId == Some(next.value.id)
  {
    var p := DerivePhase(g.phase, g.turn);
    match NextScenario(c.scenarios, p, UsedTitles(g.history))
    case Some(s) => g.(phase := p, currentScenarioId := Some(s.id))
    case None => EndGame(g, NoMoreScenarios)
  }

  /** With every title logged, loading ends the game with the exhaustion
      reason and changes nothing else. */
  lemma ExhaustionEndsGame(c: Content, g: GameState)
    requires forall i :: 0 <= i < |c.scenarios| ==>
      exists j :: 0 <= j < |g.history| && g.history[j].title == c.scenarios[i].title
    ensures LoadNextScenario(c, g) == EndGame(g, NoMoreScenarios)
  {
  }

  /** From the initial state the first technical scenario, `ipv4_exhaustion`,
      is chosen and nothing else changes. */
  lemma FirstLoadIsDeterministic(g: GameState)
    requires g == InitialState
    ensures Scenarios[0].id == "ipv4_exhaustion"
    ensures LoadNextScenario(Game, g) == g.(currentScenarioId := Some(Scenarios[0].id))
  {
    var sc := Scenarios[0];
    assert sc.phase == Technical;
    assert Eligible(sc, Some(Technical), UsedTitles(g.history));
  }

  /** The scenario of `c` with the given id, if the id is set and known
      (`SCENARIOS.find(s => s.id === id)`). */
  function FindScenario(c: Content, id: Option<string>): (r: Option<Scenario>)
    ensures r.Some? ==> r.value in c.scenarios && id == Some(r.value.id)
    ensures r.None? ==> id.None? || forall i :: 0 <= i < |c.scenarios| ==> c.scenarios[i].id != id.value
    ensures r.Some? ==> exists k :: FirstWithId(c.scenarios, id.value, k) && r == Some(c.scenarios[k])
  {
    if id.None? then None
    else FindById(c.scenarios, id.value)
  }

  /** Position k is the first scenario of `cat` carrying `id`. */
  predicate FirstWithId(cat: seq<Scenario>, id: string, k: int)
  {
    && 0 <= k < |cat|
    && cat[k].id == id
    && forall j :: 0 <= j < k ==> cat[j].id != id
  }

  /** The first scenario of `cat` whose id is `id`. */
  function FindById(cat: seq<Scenario>, id: string): (r: Option<Scenario>)
    ensures r.Some? ==> r.value in cat && r.value.id == id
    ensures r.None? ==> forall i :: 0 <= i < |cat| ==> cat[i].id != id
    ensures r.Some? ==> exists k :: FirstWithId(cat, id, k) && r == Some(cat[k])
    decreases |cat|
  {
    if cat == [] then None
    else if cat[0].id == id then Some(cat[0])
    else
      var r := FindById(cat[1..], id);
      assert r.Some? ==> exists k :: FirstWithId(cat, id, k) && r == Some(cat[k]) by {
        if r.Some? {
          var k :| FirstWithId(cat[1..], id, k) && r == Some(cat[1..][k]);
          forall j | 0 <= j < k + 1 ensures cat[j].id != id {
            if j > 0 { assert cat[j] == cat[1..][j - 1]; }
          }
          assert FirstWithId(cat, id, k + 1);
        }
      }
      r
  }

  /** Ids are keys: looking up the id of the scenario at position i finds it. */
  lemma {:induction false} FindByIdIsExact(cat: seq<Scenario>, i: int)
    requires 0 <= i < |cat|
    requires forall a, b :: 0 <= a < b < |cat| ==> cat[a].id != cat[b].id
    ensures FindById(cat, cat[i].id) == Some(cat[i])
    decreases |cat|
  {
    if i > 0 {
      assert cat[0].id != cat[i].id;
      FindByIdIsExact(cat[1..], i - 1);
    }
  }

  /** The log title for the active scenario: its title, or "Unknown" when no
      scenario is active, the id is unknown or the title is empty. */
  function ScenarioTitle(c: Content, id: Option<string>): (r: string)
    ensures r != ""
    ensures r != UnknownTitle ==>
      exists i :: 0 <= i < |c.scenarios| && id == Some(c.scenarios[i].id) && r == c.scenarios[i].title
    ensures FindScenario(c, id).Some? && FindScenario(c, id).value.title != "" ==>
      r == FindScenario(c, id).value.title
    ensures FindScenario(c, id).Some? && FindScenario(c, id).value.title == "" ==> r == UnknownTitle
    ensures FindScenario(c, id).None? ==> r == UnknownTitle
  {
    match FindScenario(c, id)
    case Some(s) => if s.title != "" then s.title else UnknownTitle
    case None => UnknownTitle
  }

  /** The first scenario is always found by its id, whatever the rest of the
      catalog holds. */
  lemma TitleOfFirst(c: Content)
    requires c.scenarios != []
    ensures FindScenario(c, Some(c.scenarios[0].id)) == Some(c.scenarios[0])
    ensures c.scenarios[0].title != "" ==> ScenarioTitle(c, Some(c.scenarios[0].id)) == c.scenarios[0].title
  {
  }

  /** With distinct ids, the scenario at position i is found by its id, and
      a non-empty title is the one logged for it. */
  lemma TitleOfScenario(c: Content, i: int)
    requires 0 <= i < |c.scenarios|
    requires forall a, b :: 0 <= a < b < |c.scenarios| ==> c.scenarios[a].id != c.scenarios[b].id
    ensures FindScenario(c, Some(c.scenarios[i].id)) == Some(c.scenarios[i])
    ensures c.scenarios[i].title != "" ==> ScenarioTitle(c, Some(c.scenarios[i].id)) == c.scenarios[i].title
  {
    FindByIdIsExact(c.scenarios, i);
  }

  // ---------------------------------------------------------------------------
  // Applying an option
  // ---------------------------------------------------------------------------

  /** `Math.max(0, Math.min(100, v))`. */
  function Clamp(v: int): (r: int)
    ensures 0 <= r <= 100
    ensures 0 <= v <= 100 ==> r == v
    ensures v < 0 ==> r == 0
    ensures v > 100 ==> r == 100
  {
    var capped := if v < 100 then v else 100;
    if 0 < capped then capped else 0
  }

  /** Applies `impacts` in list order, clamping after each change. */
  function ApplyImpacts(m: Metrics, impacts: seq<MetricChange>): (r: Metrics)
    ensures forall k :: (forall i :: 0 <= i < |impacts| ==> impacts[i].metric != k) ==> Get(r, k) == Get(m, k)
    ensures forall i :: 0 <= i < |impacts| ==> 0 <= Get(r, impacts[i].metric) <= 100
    ensures InRange(m) ==> InRange(r)
    decreases |impacts|
  {
    if impacts == [] then m
    else
      var c := impacts[0];
      ApplyImpacts(Set(m, c.metric, Clamp(Get(m, c.metric) + c.value)), impacts[1..])
  }

  /** When no metric is named twice, sequential application equals applying
      every change at once: each named metric becomes its clamped sum with
      its own delta. */
  lemma {:induction false} ApplyDistinctImpacts(m: Metrics, impacts: seq<MetricChange>, i: int)
    requires DistinctMetrics(impacts)
    requires 0 <= i < |impacts|
    ensures Get(ApplyImpacts(m, impacts), impacts[i].metric) == Clamp(Get(m, impacts[i].metric) + impacts[i].value)
    decreases |impacts|
  {
    var c := impacts[0];
    var m' := Set(m, c.metric, Clamp(Get(m, c.metric) + c.value));
    var rest := impacts[1..];
    assert DistinctMetrics(rest) by {
      forall a, b | 0 <= a < b < |rest| ensures rest[a].metric != rest[b].metric {
        assert rest[a] == impacts[a + 1] && rest[b] == impacts[b + 1];
      }
    }
    if i == 0 {
      forall j | 0 <= j < |rest| ensures rest[j].metric != c.metric {
        assert rest[j] == impacts[j + 1];
      }
    } else {
      ApplyDistinctImpacts(m', rest, i - 1);
      assert rest[i - 1] == impacts[i];
      assert c.metric != impacts[i].metric;
    }
  }

  /** Impacts apply in list order: a concatenated list is the first part
      followed by the second, whatever metrics they name. */
  lemma {:induction false} ApplyImpactsAppend(m: Metrics, a: seq<MetricChange>, b: seq<MetricChange>)
    ensures ApplyImpacts(m, a + b) == ApplyImpacts(ApplyImpacts(m, a), b)
    decreases |a|
  {
    if a == [] {
      assert a + b == b;
    } else {
      var c := a[0];
      var m' := Set(m, c.metric, Clamp(Get(m, c.metric) + c.value));
      assert (a + b)[0] == c;
      assert (a + b)[1..] == a[1..] + b;
      assert ApplyImpacts(m, a + b) == ApplyImpacts(m', a[1..] + b);
      ApplyImpactsAppend(m', a[1..], b);
    }
  }

  /** The last impact of a list acts on the metrics its predecessors left:
      its metric becomes the clamped sum of that value and its delta, even
      when earlier impacts named the same metric, and the rest are kept. */
  lemma LastImpact(m: Metrics, a: seq<MetricChange>, c: MetricChange)
    ensures Get(ApplyImpacts(m, a + [c]), c.metric) == Clamp(Get(ApplyImpacts(m, a), c.metric) + c.value)
    ensures forall k :: k != c.metric ==> Get(ApplyImpacts(m, a + [c]), k) == Get(ApplyImpacts(m, a), k)
  {
    var before := ApplyImpacts(m, a);
    ApplyImpactsAppend(m, a, [c]);
    assert [c][1..] == [];
    assert ApplyImpacts(before, [c]) == Set(before, c.metric, Clamp(Get(before, c.metric) + c.value));
  }

  /** Clamping happens after every step, not once at the end: +60 then -60
      on stability 50 ends at 40, not 50. */
  lemma ClampingIsPerStep()
    ensures ApplyImpacts(InitialMetrics, [MetricChange(Stability, 60), MetricChange(Stability, -60)]).stability == 40
  {
    var impacts := [MetricChange(Stability, 60), MetricChange(Stability, -60)];
    var once := Set(InitialMetrics, Stability, 100);
    assert ApplyImpacts(InitialMetrics, impacts) == ApplyImpacts(once, impacts[1..]);
    assert ApplyImpacts(once, impacts[1..]) == ApplyImpacts(Set(once, Stability, 40), []);
  }

  // ---------------------------------------------------------------------------
  // Game over
  // ---------------------------------------------------------------------------

  /** Whether the game ends, and why (`gameOver`, `reason`). */
  datatype Verdict = Verdict(gameOver: bool, reason: EndReason)

  /** The reasons of every end condition that holds, in priority order:
      stability at most 0, trust at most 0, openness at most 10, equity at
      most 10, then the term limit on the turn before it is incremented. */
  function EndConditions(m: Metrics, turn: int, maxTurns: int): seq<EndReason>
  {
    (if m.stability <= 0 then [Collapse] else [])
    + (if m.trust <= 0 then [LegitimacyLost] else [])
    + (if m.openness <= 10 then [Fragmentation] else [])
    + (if m.equity <= 10 then [DigitalDivide] else [])
    + (if turn >= maxTurns then [TermLimit] else [])
  }

  /** The first-match evaluation of the end conditions. */
  function CheckGameOver(m: Metrics, turn: int, maxTurns: int): (r: Verdict)
    ensures r.gameOver <==> EndConditions(m, turn, maxTurns) != []
    ensures r.gameOver ==> r.reason == EndConditions(m, turn, maxTurns)[0]
    ensures !r.gameOver ==> r.reason == Continuing
    ensures r.reason != NoMoreScenarios
  {
    if m.stability <= 0 then Verdict(true, Collapse)
    else if m.trust <= 0 then Verdict(true, LegitimacyLost)
    else if m.openness <= 10 then Verdict(true, Fragmentation)
    else if m.equity <= 10 then Verdict(true, DigitalDivide)
    else if turn >= maxTurns then Verdict(true, TermLimit)
    else Verdict(false, Continuing)
  }

  /** The end screen's success test: none of the four metric conditions. */
  predicate IsVictory(m: Metrics)
  {
    m.stability > 0 && m.trust > 0 && m.openness > 10 && m.equity > 10
  }

  /** The end screen shows success exactly when the game ended on the term
      limit, and a failed metric is always reported before the term limit. */
  lemma VictoryMeansTermLimit(m: Metrics, turn: int, maxTurns: int)
    requires CheckGameOver(m, turn, maxTurns).gameOver
    ensures IsVictory(m) <==> CheckGameOver(m, turn, maxTurns).reason == TermLimit
  {
  }

  /** With stability and trust both exhausted the collapse reason wins. */
  lemma StabilityOutranksTrust(m: Metrics, turn: int, maxTurns: int)
    requires m.stability <= 0 && m.trust <= 0
    ensures CheckGameOver(m, turn, maxTurns) == Verdict(true, Collapse)
  {
  }

  // ---------------------------------------------------------------------------
  // Badges
  // ---------------------------------------------------------------------------

  /** Some badge of `rest` with id `id` holds on `m`. */
  predicate Earned(id: string, rest: seq<Badge>, m: Metrics)
  {
    exists i :: 0 <= i < |rest| && rest[i].id == id && Holds(rest[i].condition, m)
  }

  /** No two badges of `rest` share an id. */
  predicate DistinctIds(rest: seq<Badge>)
  {
    forall i, j :: 0 <= i < j < |rest| ==> rest[i].id != rest[j].id
  }

  /** `a` occurs in `s` strictly before `b`. */
  predicate Precedes(s: seq<string>, a: string, b: string)
  {
    exists x, y :: 0 <= x < y < |s| && s[x] == a && s[y] == b
  }

  /** The badge loop: walks `rest` in order and appends the id of every badge
      whose condition holds on `m` and whose id is not yet in the list being
      built. */
  function AddBadges(acc: seq<string>, rest: seq<Badge>, m: Metrics): (r: seq<string>)
    ensures acc <= r
    ensures |r| <= |acc| + |rest|
    decreases |rest|
  {
    if rest == [] then acc
    else
      var b := rest[0];
      var acc' := if b.id !in acc && Holds(b.condition, m) then acc + [b.id] else acc;
      AddBadges(acc', rest[1..], m)
  }

  /** The reference for the loop: the ids of the badges of `rest` that hold on
      `m` and are not in `acc`, in the order of `rest`. */
  function NewlyEarned(acc: seq<string>, rest: seq<Badge>, m: Metrics): seq<string>
    decreases |rest|
  {
    if rest == [] then []
    else
      (if rest[0].id !in acc && Holds(rest[0].condition, m) then [rest[0].id] else [])
      + NewlyEarned(acc, rest[1..], m)
  }

  /** Every newly earned id is new and belongs to a badge that holds. */
  lemma {:induction false} NewlyEarnedSound(acc: seq<string>, rest: seq<Badge>, m: Metrics)
    ensures forall j :: 0 <= j < |NewlyEarned(acc, rest, m)| ==>
      NewlyEarned(acc, rest, m)[j] !in acc && Earned(NewlyEarned(acc, rest, m)[j], rest, m)
    decreases |rest|
  {
    if rest != [] {
      var tail := rest[1..];
      var head := if rest[0].id !in acc && Holds(rest[0].condition, m) then [rest[0].id] else [];
      var ne := NewlyEarned(acc, rest, m);
      var net := NewlyEarned(acc, tail, m);
      NewlyEarnedSound(acc, tail, m);
      assert ne == head + net;
      forall j | 0 <= j < |ne| ensures ne[j] !in acc && Earned(ne[j], rest, m) {
        if j < |head| {
          assert ne[j] == rest[0].id;
        } else {
          assert ne[j] == net[j - |head|];
          assert Earned(net[j - |head|], tail, m);
          var i :| 0 <= i < |tail| && tail[i].id == ne[j] && Holds(tail[i].condition, m);
          assert rest[i + 1] == tail[i];
        }
      }
    }
  }

  /** Every badge of `rest` that holds and is not yet in `acc` is newly earned. */
  lemma {:induction false} NewlyEarnedComplete(acc: seq<string>, rest: seq<Badge>, m: Metrics)
    ensures forall i :: 0 <= i < |rest| && rest[i].id !in acc && Holds(rest[i].condition, m) ==>
      rest[i].id in NewlyEarned(acc, rest, m)
    decreases |rest|
  {
    if rest != [] {
      var tail := rest[1..];
      var head := if rest[0].id !in acc && Holds(rest[0].condition, m) then [rest[0].id] else [];
      var ne := NewlyEarned(acc, rest, m);
      var net := NewlyEarned(acc, tail, m);
      NewlyEarnedComplete(acc, tail, m);
      assert ne == head + net;
      forall i | 0 <= i < |rest| && rest[i].id !in acc && Holds(rest[i].condition, m)
        ensures rest[i].id in ne
      {
        if i == 0 {
          assert ne[0] == rest[0].id;
        } else {
          assert tail[i - 1] == rest[i];
          assert rest[i].id in net;
        }
      }
    }
  }

  /** Newly earned ids keep the relative order of their badges in `rest`. */
  lemma {:induction false} NewlyEarnedKeepsOrder(acc: seq<string>, rest: seq<Badge>, m: Metrics, i: int, j: int)
    requires 0 <= i < j < |rest|
    requires rest[i].id !in acc && Holds(rest[i].condition, m)
    requires rest[j].id !in acc && Holds(rest[j].condition, m)
    ensures Precedes(NewlyEarned(acc, rest, m), rest[i].id, rest[j].id)
    decreases |rest|
  {
    var tail := rest[1..];
    var head := if rest[0].id !in acc && Holds(rest[0].condition, m) then [rest[0].id] else [];
    var ne := NewlyEarned(acc, rest, m);
    var net := NewlyEarned(acc, tail, m);
    assert ne == head + net;
    assert tail[j - 1] == rest[j];
    if i == 0 {
      NewlyEarnedComplete(acc, tail, m);
      var y :| 0 <= y < |net| && net[y] == rest[j].id;
      assert ne[0] == rest[0].id && ne[y + 1] == net[y];
    } else {
      assert tail[i - 1] == rest[i];
      NewlyEarnedKeepsOrder(acc, tail, m, i - 1, j - 1);
      var x, y :| 0 <= x < y < |net| && net[x] == rest[i].id && net[y] == rest[j].id;
      assert ne[x + |head|] == net[x] && ne[y + |head|] == net[y];
    }
  }

  /** With distinct ids no id is newly earned twice. */
  lemma {:induction false} NewlyEarnedIsDistinct(acc: seq<string>, rest: seq<Badge>, m: Metrics)
    requires DistinctIds(rest)
    ensures NoDuplicates(NewlyEarned(acc, rest, m))
    decreases |rest|
  {
    if rest != [] {
      var tail := rest[1..];
      var head := if rest[0].id !in acc && Holds(rest[0].condition, m) then [rest[0].id] else [];
      var ne := NewlyEarned(acc, rest, m);
      var net := NewlyEarned(acc, tail, m);
      DistinctIdsOfTail(rest);
      NewlyEarnedIsDistinct(acc, tail, m);
      NewlyEarnedSound(acc, tail, m);
      assert ne == head + net;
      forall y | 0 <= y < |net| ensures net[y] != rest[0].id {
        assert Earned(net[y], tail, m);
      }
      forall x, y | 0 <= x < y < |ne| ensures ne[x] != ne[y] {
        if x < |head| {
          assert ne[y] == net[y - 1];
        } else {
          assert ne[x] == net[x - |head|] && ne[y] == net[y - |head|];
        }
      }
    }
  }

  /** The tail of a list with distinct ids has distinct ids, none equal to the
      head's. */
  lemma DistinctIdsOfTail(rest: seq<Badge>)
    requires rest != [] && DistinctIds(rest)
    ensures DistinctIds(rest[1..])
    ensures forall i :: 0 <= i < |rest[1..]| ==> rest[1..][i].id != rest[0].id
  {
    var tail := rest[1..];
    forall i, j | 0 <= i < j < |tail| ensures tail[i].id != tail[j].id {
      assert tail[i] == rest[i + 1] && tail[j] == rest[j + 1];
    }
    forall i | 0 <= i < |tail| ensures tail[i].id != rest[0].id {
      assert tail[i] == rest[i + 1];
    }
  }

  /** With distinct ids the loop appends exactly the newly earned ids: its
      `includes` test against the growing list only ever sees ids of earlier
      badges, which differ from the current one. */
  lemma {:induction false} AddBadgesAppendsNewlyEarned(acc: seq<string>, rest: seq<Badge>, m: Metrics)
    requires DistinctIds(rest)
    ensures AddBadges(acc, rest, m) == acc + NewlyEarned(acc, rest, m)
    decreases |rest|
  {
    if rest != [] {
      var b := rest[0];
      var tail := rest[1..];
      DistinctIdsOfTail(rest);
      var earned := b.id !in acc && Holds(b.condition, m);
      var acc' := if earned then acc + [b.id] else acc;
      assert AddBadges(acc, rest, m) == AddBadges(acc', tail, m);
      AddBadgesAppendsNewlyEarned(acc', tail, m);
      if earned {
        NewlyEarnedIgnoresOtherIds(acc, b.id, tail, m);
        assert NewlyEarned(acc, rest, m) == [b.id] + NewlyEarned(acc, tail, m);
        assert acc + [b.id] + NewlyEarned(acc, tail, m) == acc + ([b.id] + NewlyEarned(acc, tail, m));
      } else {
        assert NewlyEarned(acc, rest, m) == NewlyEarned(acc, tail, m);
      }
    }
  }

  /** For distinct ids the loop appends exactly the newly earned ids, stated
      as an implication so that a function body can use it for any content. */
  lemma AppendsWhenDistinct(acc: seq<string>, rest: seq<Badge>, m: Metrics)
    ensures DistinctIds(rest) ==> AddBadges(acc, rest, m) == acc + NewlyEarned(acc, rest, m)
  {
    if DistinctIds(rest) {
      AddBadgesAppendsNewlyEarned(acc, rest, m);
    }
  }

  /** Adding to `acc` an id that no badge of `rest` has does not change which
      badges of `rest` are newly earned. */
  lemma {:induction false} NewlyEarnedIgnoresOtherIds(acc: seq<string>, x: string, rest: seq<Badge>, m: Metrics)
    requires forall i :: 0 <= i < |rest| ==> rest[i].id != x
    ensures NewlyEarned(acc + [x], rest, m) == NewlyEarned(acc, rest, m)
    decreases |rest|
  {
    if rest != [] {
      assert rest[0].id in acc + [x] <==> rest[0].id in acc;
      assert forall i :: 0 <= i < |rest[1..]| ==> rest[1..][i] == rest[i + 1];
      NewlyEarnedIgnoresOtherIds(acc, x, rest[1..], m);
    }
  }

  /** The loop only appends ids not yet in the list it builds, so a list
      without duplicates stays so, for any badge list. */
  lemma {:induction false} AddBadgesKeepsDistinct(acc: seq<string>, rest: seq<Badge>, m: Metrics)
    requires NoDuplicates(acc)
    ensures NoDuplicates(AddBadges(acc, rest, m))
    decreases |rest|
  {
    if rest != [] {
      var b := rest[0];
      var acc' := if b.id !in acc && Holds(b.condition, m) then acc + [b.id] else acc;
      assert NoDuplicates(acc') by {
        forall x, y | 0 <= x < y < |acc'| ensures acc'[x] != acc'[y] {
          if y == |acc| {
            assert acc'[x] == acc[x] && acc'[y] == b.id;
          } else {
            assert acc'[x] == acc[x] && acc'[y] == acc[y];
          }
        }
      }
      AddBadgesKeepsDistinct(acc', rest[1..], m);
    }
  }

  /** Every badge of `rest` whose condition holds has its id in the result,
      for any badge list. */
  lemma {:induction false} AddBadgesIncludesHolding(acc: seq<string>, rest: seq<Badge>, m: Metrics)
    ensures forall i :: 0 <= i < |rest| && Holds(rest[i].condition, m) ==> rest[i].id in AddBadges(acc, rest, m)
    decreases |rest|
  {
    if rest != [] {
      var b := rest[0];
      var acc' := if b.id !in acc && Holds(b.condition, m) then acc + [b.id] else acc;
      var r := AddBadges(acc, rest, m);
      assert r == AddBadges(acc', rest[1..], m);
      AddBadgesIncludesHolding(acc', rest[1..], m);
      forall i | 0 <= i < |rest| && Holds(rest[i].condition, m) ensures rest[i].id in r {
        if i == 0 {
          assert b.id in acc';
          assert acc' <= r;
        } else {
          assert rest[i] == rest[1..][i - 1];
        }
      }
    }
  }

  /** Every id the loop appends belongs to a badge of `rest` that holds, for
      any badge list. */
  lemma {:induction false} AddBadgesAppendsEarned(acc: seq<string>, rest: seq<Badge>, m: Metrics)
    ensures forall j :: |acc| <= j < |AddBadges(acc, rest, m)| ==> Earned(AddBadges(acc, rest, m)[j], rest, m)
    decreases |rest|
  {
    if rest != [] {
      var b := rest[0];
      var acc' := if b.id !in acc && Holds(b.condition, m) then acc + [b.id] else acc;
      var r := AddBadges(acc, rest, m);
      assert r == AddBadges(acc', rest[1..], m);
      AddBadgesAppendsEarned(acc', rest[1..], m);
      forall j | |acc| <= j < |r| ensures Earned(r[j], rest, m) {
        if j < |acc'| {
          assert acc' <= r;
          assert r[j] == b.id && Holds(b.condition, m);
          assert rest[0] == b;
        } else {
          assert Earned(r[j], rest[1..], m);
          var i :| 0 <= i < |rest[1..]| && rest[1..][i].id == r[j] && Holds(rest[1..][i].condition, m);
          assert rest[i + 1] == rest[1..][i];
        }
      }
    }
  }

  /** The guarantees of the badge loop for any badge list, ids repeated or
      not: the old list is a prefix of the new one, no id is added twice,
      every appended id belongs to a badge that holds, and every badge that
      holds is in the new list. */
  lemma BadgeLoopGuarantees(badges: seq<Badge>, unlocked: seq<string>, m: Metrics)
    ensures unlocked <= AddBadges(unlocked, badges, m)
    ensures NoDuplicates(unlocked) ==> NoDuplicates(AddBadges(unlocked, badges, m))
    ensures forall j :: |unlocked| <= j < |AddBadges(unlocked, badges, m)| ==>
      Earned(AddBadges(unlocked, badges, m)[j], badges, m)
    ensures forall i :: 0 <= i < |badges| && Holds(badges[i].condition, m) ==>
      badges[i].id in AddBadges(unlocked, badges, m)
  {
    if NoDuplicates(unlocked) {
      AddBadgesKeepsDistinct(unlocked, badges, m);
    }
    AddBadgesIncludesHolding(unlocked, badges, m);
    AddBadgesAppendsEarned(unlocked, badges, m);
  }

  /** The guarantees of the badge loop over a catalog with distinct ids: the
      old list is a prefix of the new one and exactly the newly earned ids are
      appended, no id occurs twice, every appended id belongs to a badge that
      holds, and every badge that holds is in the new list. */
  lemma UnlockGuarantees(badges: seq<Badge>, unlocked: seq<string>, m: Metrics)
    requires DistinctIds(badges)
    ensures AddBadges(unlocked, badges, m) == unlocked + NewlyEarned(unlocked, badges, m)
    ensures NoDuplicates(unlocked) ==> NoDuplicates(AddBadges(unlocked, badges, m))
    ensures forall j :: |unlocked| <= j < |AddBadges(unlocked, badges, m)| ==>
      Earned(AddBadges(unlocked, badges, m)[j], badges, m)
    ensures forall i :: 0 <= i < |badges| && Holds(badges[i].condition, m) ==>
      badges[i].id in AddBadges(unlocked, badges, m)
  {
    var ne := NewlyEarned(unlocked, badges, m);
    AddBadgesAppendsNewlyEarned(unlocked, badges, m);
    var r := unlocked + ne;
    NewlyEarnedSound(unlocked, badges, m);
    NewlyEarnedComplete(unlocked, badges, m);
    NewlyEarnedIsDistinct(unlocked, badges, m);
    forall j | |unlocked| <= j < |r| ensures Earned(r[j], badges, m) {
      assert r[j] == ne[j - |unlocked|];
    }
    if NoDuplicates(unlocked) {
      forall x, y | 0 <= x < y < |r| ensures r[x] != r[y] {
        if y < |unlocked| {
        } else if x < |unlocked| {
          assert r[y] == ne[y - |unlocked|];
        } else {
          assert r[x] == ne[x - |unlocked|] && r[y] == ne[y - |unlocked|];
        }
      }
    }
    forall i | 0 <= i < |badges| && Holds(badges[i].condition, m) ensures badges[i].id in r {
      if badges[i].id !in unlocked {
        assert badges[i].id in ne;
      }
    }
  }

  /** With distinct ids, a badge's id is earned exactly when its own
      condition holds. */
  lemma EarnedByKey(badges: seq<Badge>, i: int, m: Metrics)
    requires DistinctIds(badges) && 0 <= i < |badges|
    ensures Earned(badges[i].id, badges, m) <==> Holds(badges[i].condition, m)
  {
    if Earned(badges[i].id, badges, m) {
      var j :| 0 <= j < |badges| && badges[j].id == badges[i].id && Holds(badges[j].condition, m);
      assert i == j;
    }
  }

  /** Running the badge loop twice on the same metrics adds nothing the second
      time. */
  lemma UnlockIsIdempotent(badges: seq<Badge>, unlocked: seq<string>, m: Metrics)
    requires DistinctIds(badges)
    ensures AddBadges(AddBadges(unlocked, badges, m), badges, m) == AddBadges(unlocked, badges, m)
  {
    var once := AddBadges(unlocked, badges, m);
    UnlockGuarantees(badges, unlocked, m);
    UnlockGuarantees(badges, once, m);
    NothingNewTwice(once, badges, m);
  }

  /** Once every holding badge of `rest` is in `acc`, nothing is newly earned. */
  lemma {:induction false} NothingNewTwice(acc: seq<string>, rest: seq<Badge>, m: Metrics)
    requires forall i :: 0 <= i < |rest| && Holds(rest[i].condition, m) ==> rest[i].id in acc
    ensures NewlyEarned(acc, rest, m) == []
    decreases |rest|
  {
    if rest != [] {
      assert forall i :: 0 <= i < |rest[1..]| ==> rest[1..][i] == rest[i + 1];
      NothingNewTwice(acc, rest[1..], m);
    }
  }

  /** Two badges with the same condition unlock on the same choice, the
      earlier one first: if both or neither were unlocked before, the same
      holds after, and when both are new the earlier is appended first. */
  lemma TwinsUnlockTogether(badges: seq<Badge>, i: int, j: int, a: string, b: string, unlocked: seq<string>, m: Metrics)
    requires DistinctIds(badges) && 0 <= i < j < |badges|
    requires badges[i].id == a && badges[j].id == b
    requires badges[i].condition == badges[j].condition
    requires a in unlocked <==> b in unlocked
    ensures a in AddBadges(unlocked, badges, m) <==> b in AddBadges(unlocked, badges, m)
    ensures a !in unlocked && a in AddBadges(unlocked, badges, m) ==>
      Precedes(AddBadges(unlocked, badges, m)[|unlocked|..], a, b)
  {
    var r := AddBadges(unlocked, badges, m);
    var ne := NewlyEarned(unlocked, badges, m);
    UnlockGuarantees(badges, unlocked, m);
    assert r[|unlocked|..] == ne;
    if a !in unlocked {
      if Holds(badges[i].condition, m) {
        NewlyEarnedKeepsOrder(unlocked, badges, m, i, j);
      } else {
        NewlyEarnedSound(unlocked, badges, m);
        EarnedByKey(badges, i, m);
        EarnedByKey(badges, j, m);
        assert badges[i].id !in ne;
        assert badges[j].id !in ne;
      }
    }
  }

  /** Newly earned ids of a concatenation are those of each part, in order. */
  lemma {:induction false} NewlyEarnedAppend(acc: seq<string>, a: seq<Badge>, b: seq<Badge>, m: Metrics)
    ensures NewlyEarned(acc, a + b, m) == NewlyEarned(acc, a, m) + NewlyEarned(acc, b, m)
    decreases |a|
  {
    if a != [] {
      var head := if a[0].id !in acc && Holds(a[0].condition, m) then [a[0].id] else [];
      assert (a + b)[0] == a[0];
      assert (a + b)[1..] == a[1..] + b;
      NewlyEarnedAppend(acc, a[1..], b, m);
      var x, y := NewlyEarned(acc, a[1..], m), NewlyEarned(acc, b, m);
      assert head + (x + y) == (head + x) + y;
    } else {
      assert a + b == b;
    }
  }

  /** With stability 80 and the rest at 50, `stability_guardian` is the only
      badge whose condition holds. */
  lemma GuardianAlone()
    ensures forall i :: 0 <= i < |Badges| && Holds(Badges[i].condition, InitialMetrics.(stability := 80)) ==> i == 0
  {
    var m := InitialMetrics.(stability := 80);
    forall i | 0 <= i < |Badges| && Holds(Badges[i].condition, m) ensures i == 0 {
      if Badges[i].condition.AllAtLeast? {
        assert Get(m, Openness) < 60;
      }
    }
  }

  /** If at most the first badge of `cat` holds, none of the rest does. */
  lemma OnlyHeadHolds(cat: seq<Badge>, m: Metrics)
    requires cat != []
    requires forall i :: 0 <= i < |cat| && Holds(cat[i].condition, m) ==> i == 0
    ensures forall i :: 0 <= i < |cat[1..]| ==> !Holds(cat[1..][i].condition, m)
  {
    forall i | 0 <= i < |cat[1..]| ensures !Holds(cat[1..][i].condition, m) {
      assert cat[1..][i] == cat[i + 1];
    }
  }

  /** When only the first badge of `cat` holds and it is not yet unlocked,
      the loop appends exactly its id. */
  lemma HeadOnlyUnlocks(acc: seq<string>, cat: seq<Badge>, m: Metrics)
    requires cat != [] && DistinctIds(cat)
    requires forall i :: 0 <= i < |cat| && Holds(cat[i].condition, m) ==> i == 0
    requires Holds(cat[0].condition, m) && cat[0].id !in acc
    ensures AddBadges(acc, cat, m) == acc + [cat[0].id]
  {
    AddBadgesAppendsNewlyEarned(acc, cat, m);
    assert cat == cat[..1] + cat[1..];
    NewlyEarnedAppend(acc, cat[..1], cat[1..], m);
    OnlyHeadHolds(cat, m);
    NothingNewTwice(acc, cat[1..], m);
  }

  /** When every badge of `cat` that holds is already unlocked, the loop
      changes nothing. */
  lemma NothingToUnlock(acc: seq<string>, cat: seq<Badge>, m: Metrics)
    requires DistinctIds(cat)
    requires forall i :: 0 <= i < |cat| && Holds(cat[i].condition, m) ==> cat[i].id in acc
    ensures AddBadges(acc, cat, m) == acc
  {
    AddBadgesAppendsNewlyEarned(acc, cat, m);
    NothingNewTwice(acc, cat, m);
  }

  /** A snapshot with stability 80 and the rest at 50 unlocks
      `stability_guardian` alone. */
  lemma GuardianUnlocksAlone(m: Metrics)
    requires m == InitialMetrics.(stability := 80)
    ensures AddBadges([], Badges, m) == ["stability_guardian"]
  {
    BadgeKeys();
    GuardianAlone();
    HeadOnlyUnlocks([], Badges, m);
  }

  /** Evaluating that snapshot again does not unlock `stability_guardian` a
      second time. */
  lemma GuardianUnlocksOnce(m: Metrics)
    requires m == InitialMetrics.(stability := 80)
    ensures AddBadges(["stability_guardian"], Badges, m) == ["stability_guardian"]
  {
    BadgeKeys();
    GuardianAlone();
    NothingToUnlock(["stability_guardian"], Badges, m);
  }

  // ---------------------------------------------------------------------------
  // The handlers
  // ---------------------------------------------------------------------------

  /** `handleOptionSelect`: applies the option's impacts, evaluates the end
      conditions on the new metrics and the current turn, unlocks badges and
      appends one log entry. Turn, phase and active scenario are kept. */
  function SelectOption(c: Content, g: GameState, option: ScenarioOption): (r: GameState)
    ensures r.metrics == ApplyImpacts(g.metrics, option.impacts)
    ensures InRange(g.metrics) ==> InRange(r.metrics)
    ensures forall k :: (forall i :: 0 <= i < |option.impacts| ==> option.impacts[i].metric != k) ==>
      Get(r.metrics, k) == Get(g.metrics, k)
    ensures |r.history| == |g.history| + 1 && g.history <= r.history
    ensures r.history[|g.history|] == LogEntry(g.turn, ScenarioTitle(c, g.currentScenarioId), option.text, option.impacts)
    ensures g.unlockedBadges <= r.unlockedBadges
    ensures DistinctIds(c.badges) ==>
      r.unlockedBadges == g.unlockedBadges + NewlyEarned(g.unlockedBadges, c.badges, r.metrics)
    ensures NoDuplicates(g.unlockedBadges) ==> NoDuplicates(r.unlockedBadges)
    ensures forall j :: |g.unlockedBadges| <= j < |r.unlockedBadges| ==>
      Earned(r.unlockedBadges[j], c.badges, r.metrics)
    ensures forall i :: 0 <= i < |c.badges| && Holds(c.badges[i].condition, r.metrics) ==>
      c.badges[i].id in r.unlockedBadges
    ensures r.isGameOver <==> EndConditions(r.metrics, g.turn, g.maxTurns) != []
    ensures r.isGameOver ==> r.gameOverReason == Some(EndConditions(r.metrics, g.turn, g.maxTurns)[0])
    ensures !r.isGameOver ==> r.gameOverReason == Some(Continuing) && g.turn < g.maxTurns
    ensures r.turn == g.turn && r.maxTurns == g.maxTurns
    ensures r.currentScenarioId == g.currentScenarioId && r.phase == g.phase
  {
    var metrics := ApplyImpacts(g.metrics, option.impacts);
    var verdict := CheckGameOver(metrics, g.turn, g.maxTurns);
    var badges := AddBadges(g.unlockedBadges, c.badges, metrics);
    AppendsWhenDistinct(g.unlockedBadges, c.badges, metrics);
    BadgeLoopGuarantees(c.badges, g.unlockedBadges, metrics);
    var entry := LogEntry(g.turn, ScenarioTitle(c, g.currentScenarioId), option.text, option.impacts);
    g.(metrics := metrics,
       history := g.history + [entry],
       unlockedBadges := badges,
       isGameOver := verdict.gameOver,
       gameOverReason := Some(verdict.reason))
  }

  /** `requiredBadge` gates nothing: the choice's effect does not depend on it. */
  lemma RequiredBadgeIsIgnored(c: Content, g: GameState, option: ScenarioOption, badge: Option<string>)
    ensures SelectOption(c, g, option.(requiredBadge := badge)) == SelectOption(c, g, option)
  {
  }

  /** `handleFeedbackDismiss`: a running game moves to the next turn and asks
      for a new scenario; an ended game stays as it is. */
  function DismissFeedback(g: GameState): (r: GameState)
    ensures g.isGameOver ==> r == g
    ensures !g.isGameOver ==> r.turn == g.turn + 1 && r.currentScenarioId.None?
    ensures r.(turn := g.turn, currentScenarioId := g.currentScenarioId) == g
  {
    if g.isGameOver then g
    else g.(turn := g.turn + 1, currentScenarioId := None)
  }

  /** `resetGame`: the initial state, whatever the state before. */
  function ResetGame(g: GameState): (r: GameState)
    ensures r.turn == 1 && r.maxTurns == MaxTurns && r.metrics == InitialMetrics
    ensures r.history == [] && r.unlockedBadges == []
    ensures r.currentScenarioId.None? && r.phase == Technical
    ensures !r.isGameOver && r.gameOverReason.None?
  {
    InitialState
  }

  /** `market_forces`, the first option of the opening scenario, moves the
      starting metrics to stability 55, innovation 55 and equity 35. */
  lemma MarketForcesMetrics(o: ScenarioOption)
    requires o == Scenarios[0].options[0]
    ensures o.id == "market_forces"
    ensures ApplyImpacts(InitialMetrics, o.impacts) == Metrics(55, 50, 50, 35, 55)
  {
    assert |o.impacts| == 3;
    assert o.impacts[0] == MetricChange(Innovation, 5);
    assert o.impacts[1] == MetricChange(Equity, -15);
    assert o.impacts[2] == MetricChange(Stability, 5);
    assert o.impacts == [MetricChange(Innovation, 5), MetricChange(Equity, -15), MetricChange(Stability, 5)];
    MarketForcesArithmetic(o.impacts);
  }

  /** +5 innovation, -15 equity, +5 stability on the starting metrics. */
  lemma MarketForcesArithmetic(impacts: seq<MetricChange>)
    requires impacts == [MetricChange(Innovation, 5), MetricChange(Equity, -15), MetricChange(Stability, 5)]
    ensures ApplyImpacts(InitialMetrics, impacts) == Metrics(55, 50, 50, 35, 55)
  {
    var m1 := Metrics(50, 50, 50, 50, 55);
    var m2 := Metrics(50, 50, 50, 35, 55);
    assert ApplyImpacts(InitialMetrics, impacts) == ApplyImpacts(m1, impacts[1..]);
    assert ApplyImpacts(m1, impacts[1..]) == ApplyImpacts(m2, impacts[2..]);
    assert ApplyImpacts(m2, impacts[2..]) == ApplyImpacts(Metrics(55, 50, 50, 35, 55), []);
  }

  /** The example opening: choosing `market_forces` on turn 1 ends nothing
      and unlocks no badge. */
  lemma MarketForcesExample(g: GameState, o: ScenarioOption)
    requires g == InitialState.(currentScenarioId := Some(Scenarios[0].id))
    requires o == Scenarios[0].options[0]
    ensures var r := SelectOption(Game, g, o);
      && r.metrics == Metrics(55, 50, 50, 35, 55)
      && !r.isGameOver && r.gameOverReason == Some(Continuing)
      && r.unlockedBadges == []
  {
    var m := Metrics(55, 50, 50, 35, 55);
    MarketForcesMetrics(o);
    NoBadgeHolds(m);
    BadgeKeys();
    NothingNewTwice([], Badges, m);
  }

  /** ... and logs one entry, turn 1, under the scenario's title. */
  lemma MarketForcesLogged(g: GameState, o: ScenarioOption)
    requires g == InitialState.(currentScenarioId := Some(Scenarios[0].id))
    requires o == Scenarios[0].options[0]
    ensures SelectOption(Game, g, o).history == [LogEntry(1, Scenarios[0].title, o.text, o.impacts)]
  {
    ScenarioKeys();
    TitleOfFirst(Game);
  }

  /** The term has as many turns as the catalog has scenarios. */
  lemma TermMatchesCatalog()
    ensures MaxTurns == |Scenarios|
  {
    ScenarioKeys();
  }
}
