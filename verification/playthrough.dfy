/** A playthrough as the player experiences it: the game state together with
    the feedback overlay that `handleOptionSelect` opens and
    `handleFeedbackDismiss` closes, and the four things that can happen next
    (the scenario-loading effect, a choice, dismissing the overlay, a reset).
    The render guards of App.tsx decide which of them is possible. */
module Playthrough {
  import opened Types
  import opened Catalog
  import opened CatalogFacts
  import opened Engine

  /** The overlay shown after a choice (`feedback`). */
  datatype Feedback = Feedback(title: string, text: string, impacts: seq<MetricChange>)

  datatype Session = Session(game: GameState, feedback: Option<Feedback>)

  /** The inputs that change the state: the effect that loads a scenario when
      none is active, a click on an option, the overlay's continue button and
      the end screen's restart button. */
  datatype Action = LoadScenario | Choose(option: ScenarioOption) | Acknowledge | Restart

  const Initial := Session(InitialState, None)

  /** The shape of content the controller's bookkeeping relies on: one
      scenario per turn of the term, written for that turn's phase, with
      distinct ids and distinct non-empty titles; badges with distinct ids,
      none of which is earned by the starting metrics. */
  predicate WellFormed(c: Content)
  {
    && |c.scenarios| == MaxTurns
    && (forall i, j :: 0 <= i < j < |c.scenarios| ==>
          c.scenarios[i].id != c.scenarios[j].id && c.scenarios[i].title != c.scenarios[j].title)
    && (forall i :: 0 <= i < |c.scenarios| ==>
          c.scenarios[i].title != "" && c.scenarios[i].phase == PhaseWindow(i + 1))
    && DistinctIds(c.badges)
    && (forall i :: 0 <= i < |c.badges| ==> !Holds(c.badges[i].condition, InitialMetrics))
  }

  /** The shipped content has that shape. */
  lemma GameIsWellFormed()
    ensures WellFormed(Game)
  {
    ScenarioKeys();
    TermMatchesCatalog();
    BadgeKeys();
    InitialMetricsAreQuiet();
  }

  /** Whether `a` can happen in `s`. Loading runs while no scenario is active
      and the game is on; options are clickable only on the active scenario's
      card, which is hidden by the overlay and by the end screen; the overlay's
      button needs the overlay; restart sits on the end screen. */
  predicate Enabled(c: Content, s: Session, a: Action)
  {
    match a
    case LoadScenario => s.game.currentScenarioId.None? && !s.game.isGameOver
    case Choose(o) =>
      && s.feedback.None?
      && !s.game.isGameOver
      && FindScenario(c, s.game.currentScenarioId).Some?
      && o in FindScenario(c, s.game.currentScenarioId).value.options
    case Acknowledge => s.feedback.Some?
    case Restart => s.game.isGameOver && s.feedback.None?
  }

  /** The effect of an enabled action. */
  function Step(c: Content, s: Session, a: Action): (r: Session)
    requires Enabled(c, s, a)
    ensures a.Choose? ==> r.feedback == Some(Feedback(a.option.feedbackTitle, a.option.feedbackText, a.option.impacts))
    ensures a.LoadScenario? ==> r.feedback == s.feedback
    ensures a.Acknowledge? || a.Restart? ==> r.feedback.None?
    ensures !a.Choose? && !a.Restart? ==> r.game.history == s.game.history && r.game.metrics == s.game.metrics
    ensures a.Choose? ==> |r.game.history| == |s.game.history| + 1 && s.game.history <= r.game.history
  {
    match a
    case LoadScenario => Session(LoadNextScenario(c, s.game), s.feedback)
    case Choose(o) =>
      Session(SelectOption(c, s.game, o), Some(Feedback(o.feedbackTitle, o.feedbackText, o.impacts)))
    case Acknowledge => Session(DismissFeedback(s.game), None)
    case Restart => Session(ResetGame(s.game), None)
  }

  /** The session after `actions`, or None if one of them is not enabled when
      its turn comes. */
  function Run(c: Content, s: Session, actions: seq<Action>): Option<Session>
    decreases |actions|
  {
    if actions == [] then Some(s)
    else if !Enabled(c, s, actions[0]) then None
    else Run(c, Step(c, s, actions[0]), actions[1..])
  }

  // ---------------------------------------------------------------------------
  // The invariant of reachable sessions
  // ---------------------------------------------------------------------------

  /** `e` records one of the options of `sc`. */
  predicate Records(e: LogEntry, sc: Scenario)
  {
    e.title == sc.title && exists o :: o in sc.options && e.outcome == o.text && e.impacts == o.impacts
  }

  /** The i-th log entry is turn i + 1 spent on the i-th scenario of `cat`. */
  predicate LogFollows(history: seq<LogEntry>, cat: seq<Scenario>)
  {
    && |history| <= |cat|
    && forall i :: 0 <= i < |history| ==> history[i].turn == i + 1 && Records(history[i], cat[i])
  }

  /** Logging turn k + 1 on the k-th scenario extends a log that follows the
      catalog. */
  lemma LogFollowsExtends(history: seq<LogEntry>, cat: seq<Scenario>, e: LogEntry)
    requires LogFollows(history, cat) && |history| < |cat|
    requires e.turn == |history| + 1 && Records(e, cat[|history|])
    ensures LogFollows(history + [e], cat)
  {
    var h := history + [e];
    forall i | 0 <= i < |h| ensures h[i].turn == i + 1 && Records(h[i], cat[i]) {
      if i < |history| {
        assert h[i] == history[i];
      }
    }
  }

  /** `x` is the id of a badge of `badges`. */
  predicate IsBadgeId(badges: seq<Badge>, x: string)
  {
    exists i :: 0 <= i < |badges| && badges[i].id == x
  }

  /** Badges with the same condition are unlocked together or not at all. */
  predicate TwinsTogether(badges: seq<Badge>, unlocked: seq<string>)
  {
    forall i, j :: 0 <= i < j < |badges| && badges[i].condition == badges[j].condition ==>
      (badges[i].id in unlocked <==> badges[j].id in unlocked)
  }

  /** The unlocked list holds catalog ids, none twice, includes every badge
      whose condition holds now, and has badges sharing a condition both or
      neither. */
  predicate BadgesConsistent(badges: seq<Badge>, unlocked: seq<string>, m: Metrics)
  {
    && NoDuplicates(unlocked)
    && (forall j :: 0 <= j < |unlocked| ==> IsBadgeId(badges, unlocked[j]))
    && (forall i :: 0 <= i < |badges| && Holds(badges[i].condition, m) ==> badges[i].id in unlocked)
    && TwinsTogether(badges, unlocked)
  }

  /** The turn has been played: a choice was made on it. */
  predicate Resolved(s: Session)
  {
    s.feedback.Some? || s.game.isGameOver
  }

  /** Turn bookkeeping: the turn lies in the term, the phase is that of this
      turn or the previous one, one log entry per resolved turn, a scenario is
      active once the turn is resolved, and a running game with the overlay
      open has turns left. */
  predicate Progress(s: Session)
  {
    var g := s.game;
    && InRange(g.metrics)
    && g.maxTurns == MaxTurns
    && 1 <= g.turn <= MaxTurns
    && (g.phase == PhaseWindow(g.turn - 1) || g.phase == PhaseWindow(g.turn))
    && |g.history| == (if Resolved(s) then g.turn else g.turn - 1)
    && (Resolved(s) ==> g.currentScenarioId.Some?)
    && (s.feedback.Some? && !g.isGameOver ==> g.turn < MaxTurns)
  }

  /** The log follows the catalog and the active scenario is the one of the
      current turn, shown in its own phase. */
  predicate OnCatalog(cat: seq<Scenario>, g: GameState)
  {
    && LogFollows(g.history, cat)
    && (g.currentScenarioId.Some? ==>
          && 1 <= g.turn <= |cat|
          && g.currentScenarioId == Some(cat[g.turn - 1].id)
          && g.phase == PhaseWindow(g.turn))
  }

  /** An ended game has a reason other than exhaustion, and it is the term
      limit exactly when the end screen reports success. */
  predicate EndConsistent(g: GameState)
  {
    g.isGameOver ==>
      && g.gameOverReason.Some?
      && g.gameOverReason.value != NoMoreScenarios
      && (IsVictory(g.metrics) <==> g.gameOverReason.value == TermLimit)
  }

  /** What holds of every session a playthrough over `c` can reach. */
  predicate Inv(c: Content, s: Session)
  {
    && Progress(s)
    && OnCatalog(c.scenarios, s.game)
    && BadgesConsistent(c.badges, s.game.unlockedBadges, s.game.metrics)
    && EndConsistent(s.game)
  }

  lemma InitialInv(c: Content)
    requires WellFormed(c)
    ensures Inv(c, Initial)
  {
    InitialMetricsAreQuiet();
  }

  /** The titles of the first k scenarios are exactly the used titles of a log
      that follows the catalog, so the scenario at position k is unused. */
  lemma UsedTitlesOfLog(c: Content, history: seq<LogEntry>)
    requires WellFormed(c)
    requires LogFollows(history, c.scenarios)
    requires |history| < |c.scenarios|
    ensures forall i :: 0 <= i < |history| ==> c.scenarios[i].title in UsedTitles(history)
    ensures c.scenarios[|history|].title !in UsedTitles(history)
  {
    var cat := c.scenarios;
    var used := UsedTitles(history);
    forall i | 0 <= i < |history| ensures cat[i].title in used {
      assert Records(history[i], cat[i]);
    }
  }

  /** When the first k scenarios are used and the k-th is not and has phase p,
      the k-th is the next one, found without the fallback. */
  lemma NextIsPosition(cat: seq<Scenario>, k: int, p: Phase, used: set<string>)
    requires 0 <= k < |cat|
    requires forall i :: 0 <= i < k ==> cat[i].title in used
    requires cat[k].title !in used && cat[k].phase == p
    ensures FirstEligible(cat, Some(p), used) == Some(k)
    ensures NextScenario(cat, p, used) == Some(cat[k])
  {
    assert Eligible(cat[k], Some(p), used);
  }

  /** In a reachable session the loading effect picks the scenario of the
      current turn, by phase and never by the fallback, and does not end the
      game. */
  lemma LoadUsesPhaseMatch(c: Content, s: Session)
    requires WellFormed(c) && Inv(c, s) && Enabled(c, s, LoadScenario)
    ensures FirstEligible(c.scenarios, Some(PhaseWindow(s.game.turn)), UsedTitles(s.game.history)).Some?
    ensures Step(c, s, LoadScenario).game ==
      s.game.(phase := PhaseWindow(s.game.turn), currentScenarioId := Some(c.scenarios[s.game.turn - 1].id))
  {
    var g := s.game;
    UsedTitlesOfLog(c, g.history);
    DerivePhaseFollowsWindows(g.phase, g.turn);
    NextIsPosition(c.scenarios, g.turn - 1, PhaseWindow(g.turn), UsedTitles(g.history));
  }

  lemma LoadPreservesInv(c: Content, s: Session)
    requires WellFormed(c) && Inv(c, s) && Enabled(c, s, LoadScenario)
    ensures Inv(c, Step(c, s, LoadScenario))
  {
    var r := Step(c, s, LoadScenario);
    LoadUsesPhaseMatch(c, s);
    assert r.game.history == s.game.history && r.game.metrics == s.game.metrics;
    assert r.game.unlockedBadges == s.game.unlockedBadges && !r.game.isGameOver;
    assert Progress(r);
    assert OnCatalog(c.scenarios, r.game);
  }

  /** The badge part of the invariant survives a choice. */
  lemma UnlockKeepsConsistent(badges: seq<Badge>, unlocked: seq<string>, before: Metrics, m: Metrics)
    requires DistinctIds(badges)
    requires BadgesConsistent(badges, unlocked, before)
    ensures BadgesConsistent(badges, AddBadges(unlocked, badges, m), m)
  {
    var r := AddBadges(unlocked, badges, m);
    UnlockGuarantees(badges, unlocked, m);
    forall j | 0 <= j < |r| ensures IsBadgeId(badges, r[j]) {
      if j >= |unlocked| {
        assert Earned(r[j], badges, m);
      } else {
        assert r[j] == unlocked[j];
        assert IsBadgeId(badges, unlocked[j]);
      }
    }
    forall i, j | 0 <= i < j < |badges| && badges[i].condition == badges[j].condition
      ensures badges[i].id in r <==> badges[j].id in r
    {
      TwinsUnlockTogether(badges, i, j, badges[i].id, badges[j].id, unlocked, m);
    }
  }

  /** A choice logs the active scenario, which is the one of the turn. */
  lemma ChooseKeepsCatalog(c: Content, s: Session, o: ScenarioOption)
    requires WellFormed(c)
    requires Progress(s) && OnCatalog(c.scenarios, s.game) && Enabled(c, s, Choose(o))
    ensures OnCatalog(c.scenarios, Step(c, s, Choose(o)).game)
  {
    var g := s.game;
    var r := Step(c, s, Choose(o)).game;
    var k := g.turn - 1;
    TitleOfScenario(c, k);
    var e := LogEntry(g.turn, c.scenarios[k].title, o.text, o.impacts);
    assert r.history == g.history + [e];
    assert Records(e, c.scenarios[k]);
    LogFollowsExtends(g.history, c.scenarios, e);
  }

  lemma ChooseKeepsEnd(c: Content, s: Session, o: ScenarioOption)
    requires Enabled(c, s, Choose(o))
    ensures EndConsistent(Step(c, s, Choose(o)).game)
  {
    var r := Step(c, s, Choose(o)).game;
    if r.isGameOver {
      VictoryMeansTermLimit(r.metrics, s.game.turn, s.game.maxTurns);
    }
  }

  lemma ChoosePreservesInv(c: Content, s: Session, o: ScenarioOption)
    requires WellFormed(c) && Inv(c, s) && Enabled(c, s, Choose(o))
    ensures Inv(c, Step(c, s, Choose(o)))
  {
    var r := Step(c, s, Choose(o));
    assert Progress(r);
    ChooseKeepsCatalog(c, s, o);
    UnlockKeepsConsistent(c.badges, s.game.unlockedBadges, s.game.metrics, r.game.metrics);
    ChooseKeepsEnd(c, s, o);
  }

  lemma AcknowledgePreservesInv(c: Content, s: Session)
    requires Inv(c, s) && Enabled(c, s, Acknowledge)
    ensures Inv(c, Step(c, s, Acknowledge))
  {
  }

  lemma RestartPreservesInv(c: Content, s: Session)
    requires WellFormed(c) && Inv(c, s) && Enabled(c, s, Restart)
    ensures Inv(c, Step(c, s, Restart))
  {
    InitialInv(c);
  }

  /** Every enabled action keeps the invariant. */
  lemma StepPreservesInv(c: Content, s: Session, a: Action)
    requires WellFormed(c) && Inv(c, s) && Enabled(c, s, a)
    ensures Inv(c, Step(c, s, a))
  {
    match a
    case LoadScenario => LoadPreservesInv(c, s);
    case Choose(o) => ChoosePreservesInv(c, s, o);
    case Acknowledge => AcknowledgePreservesInv(c, s);
    case Restart => RestartPreservesInv(c, s);
  }

  lemma {:induction false} RunPreservesInv(c: Content, s: Session, actions: seq<Action>)
    requires WellFormed(c) && Inv(c, s)
    ensures Run(c, s, actions).Some? ==> Inv(c, Run(c, s, actions).value)
    decreases |actions|
  {
    if actions != [] && Enabled(c, s, actions[0]) {
      StepPreservesInv(c, s, actions[0]);
      RunPreservesInv(c, Step(c, s, actions[0]), actions[1..]);
    }
  }

  // ---------------------------------------------------------------------------
  // Consequences for every playthrough
  // ---------------------------------------------------------------------------

  /** What the invariant means in the player's terms: the turn stays within
      the term, metrics stay in range, no badge is unlocked twice, the
      scenario on screen at turn t is the t-th of the catalog, and the game
      never ends for lack of scenarios. */
  predicate Playable(c: Content, g: GameState)
  {
    && 1 <= g.turn <= MaxTurns
    && InRange(g.metrics)
    && NoDuplicates(g.unlockedBadges)
    && (g.currentScenarioId.Some? ==>
          g.turn <= |c.scenarios| && g.currentScenarioId == Some(c.scenarios[g.turn - 1].id))
    && (g.isGameOver ==> g.gameOverReason.Some? && g.gameOverReason.value != NoMoreScenarios)
  }

  lemma InvIsPlayable(c: Content, s: Session)
    requires Inv(c, s)
    ensures Playable(c, s.game)
  {
  }

  /** `s` is the outcome of some sequence of enabled actions from the start. */
  ghost predicate Reachable(c: Content, s: Session)
  {
    exists actions :: Run(c, Initial, actions) == Some(s)
  }

  /** Every session reachable with well-formed content is playable. */
  lemma ReachableFacts(c: Content, s: Session)
    requires WellFormed(c) && Reachable(c, s)
    ensures Playable(c, s.game)
  {
    var actions :| Run(c, Initial, actions) == Some(s);
    InitialInv(c);
    RunPreservesInv(c, Initial, actions);
    InvIsPlayable(c, s);
  }

  /** With well-formed content the scenario at each turn is the same
      whatever the player chose before. */
  lemma FixedScenarioSequence(c: Content, s1: Session, s2: Session)
    requires WellFormed(c) && Reachable(c, s1) && Reachable(c, s2)
    requires s1.game.turn == s2.game.turn
    requires s1.game.currentScenarioId.Some? && s2.game.currentScenarioId.Some?
    ensures s1.game.currentScenarioId == s2.game.currentScenarioId
  {
    ReachableFacts(c, s1);
    ReachableFacts(c, s2);
  }

  /** In the shipped game `digital_bridge` and `digital_divide_bridge` are
      held together in every reachable session. */
  lemma DigitalBridgesHeldTogether(s: Session)
    requires Reachable(Game, s)
    ensures "digital_bridge" in s.game.unlockedBadges <==> "digital_divide_bridge" in s.game.unlockedBadges
  {
    var actions :| Run(Game, Initial, actions) == Some(s);
    GameIsWellFormed();
    InitialInv(Game);
    RunPreservesInv(Game, Initial, actions);
    DigitalBridgesShareRule();
    BadgeKeys();
  }

  /** The last choice of the term always ends the game. */
  lemma LastChoiceEndsGame(c: Content, s: Session, o: ScenarioOption)
    requires Inv(c, s) && Enabled(c, s, Choose(o)) && s.game.turn == MaxTurns
    ensures Step(c, s, Choose(o)).game.isGameOver
  {
  }

  /** Number of choices in `actions`. */
  function Choices(actions: seq<Action>): nat
  {
    if actions == [] then 0
    else (if actions[0].Choose? then 1 else 0) + Choices(actions[1..])
  }

  /** Without a restart the log only grows, by one entry per choice, the
      turn never decreases, the badge list only grows, and an ended game
      stays ended. */
  lemma {:induction false} LogCountsChoices(c: Content, s: Session, actions: seq<Action>)
    requires forall i :: 0 <= i < |actions| ==> !actions[i].Restart?
    requires Run(c, s, actions).Some?
    ensures s.game.history <= Run(c, s, actions).value.game.history
    ensures |Run(c, s, actions).value.game.history| == |s.game.history| + Choices(actions)
    ensures s.game.turn <= Run(c, s, actions).value.game.turn
    ensures s.game.unlockedBadges <= Run(c, s, actions).value.game.unlockedBadges
    ensures s.game.isGameOver ==> Run(c, s, actions).value.game.isGameOver
    decreases |actions|
  {
    if actions != [] {
      var a := actions[0];
      var next := Step(c, s, a);
      assert !a.Restart?;
      assert next.game.turn >= s.game.turn;
      assert s.game.unlockedBadges <= next.game.unlockedBadges;
      assert s.game.isGameOver ==> next.game.isGameOver;
      LogCountsChoices(c, next, actions[1..]);
    }
  }
}
