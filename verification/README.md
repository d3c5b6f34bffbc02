# NetSteward game engine in Dafny

NetSteward is a ten-turn internet-governance game. The player steers five
indices (stability, openness, trust, equity and innovation), each in [0, 100]
and each starting at 50. Every turn presents one scenario from a fixed
catalog. The player picks one of its options, and the game then:

- applies the option's impacts with clamping after every step;
- checks the end conditions in a fixed priority order;
- unlocks the badges whose conditions now hold;
- appends one entry to the audit log.

This project models the engine that lives in the top-level controller
(`App.tsx`), the content it runs over (`data/scenarios.ts`) and the record
shapes (`types.ts`), and proves properties of them.

The modules follow the source:

- `Types` (`types.dfy`) holds the records of `types.ts`: metrics, impacts,
  options, scenarios, badges, log entries, the game state, and the reason a
  game ended.
- `Catalog` (`catalog.dfy`) holds the content of `data/scenarios.ts`: the
  starting metrics, the thirteen badges and the ten scenarios. It also holds
  `Content`, the pair of catalogs a game runs over, and `Game`, the shipped
  content.
- `CatalogFacts` (`catalog_facts.dfy`) holds the facts about the shipped data
  that the engine's behaviour depends on: unique keys, phase windows, option
  shapes and the badge thresholds.
- `Engine` (`engine.dfy`) holds the handlers as pure functions:
  - `LoadNextScenario` (`loadNextScenario`);
  - `SelectOption` (`handleOptionSelect`);
  - `DismissFeedback` (`handleFeedbackDismiss`);
  - `ResetGame` (`resetGame`);
  - `EndGame` (`endGame`);
  - the phase derivation, the clamped metric update, the first-match
    game-over check and the badge loop, each with a reference definition and
    lemmas relating the two.
- `Playthrough` (`playthrough.dfy`) holds a session: the game state plus the
  feedback overlay. It defines the four things that can happen next (the
  loading effect, a choice, dismissing the overlay, a restart), when the
  render allows each, and an invariant kept by every enabled action. From
  that invariant it derives the guarantees of every playthrough: the turn
  stays within the term, metrics stay in range, no badge repeats, the
  scenario at each turn is fixed, and the game never runs out of scenarios.

The handlers take the content as a parameter `c: Content`. The playthrough
guarantees are proved for every content satisfying `Playthrough.WellFormed`:

- one scenario per turn, written for that turn's phase;
- distinct ids and distinct non-empty titles;
- distinct badge ids;
- no badge earned by the starting metrics.

`Playthrough.GameIsWellFormed` proves that the shipped content is well formed.

## Model

| member | source | states |
|---|---|---|
| Types.Set | App.tsx:82 | Writing metric k sets k to the new value and keeps every other metric. |
| CatalogFacts.PhasesOf | data/scenarios.ts:105-453 | The phase tags of a catalog, one per scenario, in catalog order. |
| Engine.TermMatchesCatalog | App.tsx:11 | The term has `MAX_TURNS` = 10 turns, as many as the catalog has scenarios. |
| Engine.DerivePhase | App.tsx:48-51 | Up to turn 2 the current phase is kept. After that the phase is the turn's window: regional from turn 3, policy from turn 6, global from turn 9. Crisis comes out only if it went in. |
| Engine.DerivePhaseFollowsWindows | App.tsx:48-51 | Starting from the phase of the previous or current turn, the derived phase is exactly the current turn's window and never ranks below the phase it started from. |
| Engine.WindowsAreMonotone | App.tsx:48-51 | The turn windows never move backwards as the turn grows, and none of them is crisis. |
| Engine.UsedTitles | App.tsx:54 | The de-duplication set contains exactly the titles that occur in the log. |
| Engine.FirstEligible | App.tsx:55-60 | Returns the index of the first unused scenario (of the wanted phase, if one is wanted): everything before it is ineligible. None means no scenario is eligible. |
| Engine.NextScenario | App.tsx:53-62 | If an unused scenario of the phase exists, the result is the first one in catalog order. Otherwise it is the first unused scenario of any phase. It is None exactly when every title is used, and it never returns a used title. |
| Engine.EndGame | App.tsx:162-168 | Sets game over with the given reason and changes nothing else. |
| Engine.LoadNextScenario | App.tsx:46-73 | Only the phase, the active id and the game-over fields change. With every title used, the game ends with the exhaustion reason. Otherwise the derived phase is stored and the scenario `NextScenario` picks becomes active: the first unused one of the derived phase, else the first unused one. |
| Engine.ExhaustionEndsGame | App.tsx:70-72 | When the log holds every catalog title, loading yields exactly `endGame` with the exhaustion reason. |
| Engine.FirstLoadIsDeterministic | App.tsx:46-69 | From the initial state the first load activates `ipv4_exhaustion`, the first technical scenario, and changes nothing else. |
| Engine.FindScenario | App.tsx:114 | A found scenario is the first one in the catalog that carries the requested id. None means no id is set or no scenario has it. |
| Engine.FindById | App.tsx:114 | `find` by id: a result is the scenario at the first position that carries the id, and None means no scenario has the id. |
| Engine.FindByIdIsExact | App.tsx:114 | With distinct ids, looking up the id of the scenario at any position finds that scenario. |
| Engine.ScenarioTitle | App.tsx:114 | The logged title is the title of the first scenario carrying the active id when that title is non-empty, and "Unknown" when that title is empty or no scenario is found. It is never empty, and unless it is "Unknown" it is the title of a scenario with the active id. |
| Engine.TitleOfFirst | App.tsx:114 | The first catalog scenario is always found by its id, and its non-empty title is the one logged. |
| Engine.TitleOfScenario | App.tsx:114 | With distinct ids, the scenario at any position is found by its id, and its non-empty title is the one logged. |
| Engine.Clamp | App.tsx:82 | `max(0, min(100, v))` lies in [0, 100], is the identity inside that range, and gives 0 below it and 100 above it. |
| Engine.ApplyImpacts | App.tsx:77-83 | A metric that no impact names keeps its value, every named metric ends in [0, 100], and in-range metrics stay in range. |
| Engine.ApplyDistinctImpacts | App.tsx:81-83 | When no metric is named twice, each named metric ends as the clamped sum of its old value and its own delta. |
| Engine.ApplyImpactsAppend | App.tsx:81-83 | Impacts apply in list order: applying `a + b` is applying `a` and then `b`, for any lists, repeated metrics included. |
| Engine.LastImpact | App.tsx:81-83 | The last impact of a list sets its metric to the clamped sum of the value the earlier impacts left and its delta, even when an earlier impact named the same metric. The other metrics are what the earlier impacts left. |
| Engine.ClampingIsPerStep | App.tsx:81-83 | Clamping happens after each step: +60 then -60 on stability 50 gives 40, not 50. |
| Engine.CheckGameOver | App.tsx:86-101 | The game ends exactly when one of the five conditions holds, and the reason is the first that holds in the order stability, trust, openness, equity, term limit. Otherwise the reason is the empty one. |
| Engine.VictoryMeansTermLimit | App.tsx:276-279 | `Engine.IsVictory` is the end screen's success test: stability and trust above 0, openness and equity above 10. On an ended game it holds exactly when the reason is the term limit. |
| Engine.StabilityOutranksTrust | App.tsx:86-91 | With stability and trust both at or below 0, the collapse reason is reported. |
| Engine.AddBadges | App.tsx:104-109 | The old list is a prefix of the new one, and at most one id is added per badge. |
| Engine.NewlyEarnedSound | App.tsx:104-109 | Every newly earned id is new and belongs to a badge whose condition holds. |
| Engine.NewlyEarnedComplete | App.tsx:104-109 | Every badge that holds and is not yet unlocked is newly earned. |
| Engine.NewlyEarnedKeepsOrder | App.tsx:105-108 | Newly earned ids follow catalog order. |
| Engine.NewlyEarnedIsDistinct | App.tsx:104-109 | With distinct badge ids, no newly earned id occurs twice. |
| Engine.AddBadgesAppendsNewlyEarned | App.tsx:104-109 | With distinct ids, the loop appends exactly the newly earned ids, in catalog order. |
| Engine.AppendsWhenDistinct | App.tsx:104-109 | For distinct ids, the loop appends exactly the newly earned ids; stated as an implication so that the body of `SelectOption` can use it. |
| Engine.NewlyEarnedIgnoresOtherIds | App.tsx:106 | An id that no remaining badge has does not affect which badges are newly earned. |
| Engine.NewlyEarnedAppend | App.tsx:105-108 | The newly earned ids of two concatenated catalogs are those of each part, in order. |
| Engine.AddBadgesKeepsDistinct | App.tsx:104-109 | For any badge list, ids repeated or not, a list without duplicates stays without duplicates, because the loop tests the list it builds. |
| Engine.AddBadgesIncludesHolding | App.tsx:104-109 | For any badge list, every badge whose condition holds has its id in the result. |
| Engine.AddBadgesAppendsEarned | App.tsx:104-109 | For any badge list, every appended id belongs to a badge whose condition holds. |
| Engine.BadgeLoopGuarantees | App.tsx:104-109 | For any badge list: the old list is a prefix of the new one, no id is added twice, every appended id belongs to a badge that holds, and every badge that holds is in the new list. |
| Engine.UnlockGuarantees | App.tsx:104-109 | The old list is a prefix of the new one, and exactly the newly earned ids are appended. A duplicate-free list stays duplicate-free. Every appended id belongs to a badge that holds. Every badge that holds is in the new list. |
| Engine.EarnedByKey | App.tsx:106 | With distinct ids, a badge's id is earned exactly when its own condition holds. |
| Engine.UnlockIsIdempotent | App.tsx:104-109 | Running the badge loop twice on the same metrics adds nothing the second time. |
| Engine.NothingNewTwice | App.tsx:105-108 | When every holding badge is already unlocked, nothing is newly earned. |
| Engine.TwinsUnlockTogether | App.tsx:104-109 | Two badges with the same condition are unlocked on the same choice, and the one earlier in the catalog is appended first. |
| Engine.OnlyHeadHolds | App.tsx:105-108 | If only the first badge of a list can hold, none of the rest does. |
| Engine.HeadOnlyUnlocks | App.tsx:104-109 | If only the first badge holds and it is not yet unlocked, the loop appends exactly its id. |
| Engine.NothingToUnlock | App.tsx:104-109 | If every badge that holds is already unlocked, the loop returns the list unchanged. |
| Engine.GuardianAlone | data/scenarios.ts:11-103 | With stability 80 and the rest at 50, `stability_guardian` is the only badge whose condition holds. |
| Engine.GuardianUnlocksAlone | data/scenarios.ts:12-18 | That snapshot unlocks `stability_guardian` alone. |
| Engine.GuardianUnlocksOnce | App.tsx:106 | Evaluating that snapshot again does not add `stability_guardian` a second time. |
| Engine.SelectOption | App.tsx:75-134 | On a choice: <ul><li>the new metrics are the option's impacts applied in list order with clamping after each step (`ApplyImpacts`);</li><li>in-range metrics stay in range, and metrics the option does not name are unchanged;</li><li>the log grows by exactly the entry {turn, active title or "Unknown", option text, impacts}, and earlier entries are kept;</li><li>the old badge list is kept as a prefix; for any badge catalog, a list without duplicates stays so, every appended id belongs to a badge that holds on the new metrics, and every badge that holds is in the new list; for a catalog with distinct badge ids, the list grows by exactly the newly earned ids, in catalog order;</li><li>the game is over exactly when an end condition holds, with the first one as the reason; otherwise the reason is the empty one and turns remain;</li><li>turn, term, active scenario and phase are kept.</li></ul> |
| Engine.RequiredBadgeIsIgnored | types.ts:23 | `requiredBadge` gates nothing: a choice's effect does not depend on it. |
| Engine.DismissFeedback | App.tsx:136-145 | On a running game the turn advances by one and the active scenario is cleared. An ended game is left as it is. Nothing else changes. |
| Engine.ResetGame | App.tsx:147-160 | Any state resets to turn 1, term 10, the starting metrics, an empty log and badge list, the technical phase, no active scenario and no game over. |
| Engine.MarketForcesMetrics | data/scenarios.ts:114-125 | The first option of the opening scenario is `market_forces`. On the starting metrics it gives stability 55, innovation 55, equity 35, openness 50 and trust 50. |
| Engine.MarketForcesArithmetic | App.tsx:81-83 | +5 innovation, -15 equity and +5 stability on the starting metrics give (55, 50, 50, 35, 55). |
| Engine.MarketForcesExample | data/scenarios.ts:114-125 | Choosing `market_forces` on turn 1 gives those metrics, does not end the game (empty reason) and unlocks no badge. |
| Engine.MarketForcesLogged | App.tsx:112-124 | That choice logs one entry: turn 1, the scenario's title, the option's text and its impacts. |
| CatalogFacts.ScenarioKeys | data/scenarios.ts:105-453 | There are ten scenarios with pairwise-distinct, non-empty ids and titles, so keying on titles never confuses two scenarios. The scenario at position i is written for the phase of turn i + 1. |
| CatalogFacts.PhaseCounts | data/scenarios.ts:105-453 | The catalog has 2 technical, 3 regional, 3 policy, 2 global and 0 crisis scenarios. |
| CatalogFacts.WindowLengths | data/scenarios.ts:106-386 | The turn windows 1-2, 3-5, 6-8 and 9-10 of the catalog's section headings are 2, 3, 3 and 2 turns long and contain no crisis turn. |
| CatalogFacts.CountAppend | data/scenarios.ts:105-453 | The phase counts of two concatenated lists add up. |
| CatalogFacts.OptionShapes | data/scenarios.ts:113-451 | Every scenario offers at least two options with distinct ids, no option names a metric twice, and no option requires a badge. |
| CatalogFacts.BadgeKeys | data/scenarios.ts:11-103 | There are thirteen badges with pairwise-distinct ids. |
| CatalogFacts.InitialMetricsAreQuiet | data/scenarios.ts:3-9 | The starting metrics are all 50. They are in range, no metric end condition holds on them, and no badge condition holds on them. |
| CatalogFacts.NoBadgeHolds | data/scenarios.ts:11-103 | No badge holds while every metric is below 75 and some metric is below 60. |
| CatalogFacts.DigitalBridgesShareRule | data/scenarios.ts:40-102 | `digital_bridge` (5th) and `digital_divide_bridge` (13th) both need equity of at least 80, and no other badge has that condition. |
| CatalogFacts.BalancerIsHealthy | data/scenarios.ts:47-53 | When `master_balancer` holds (all at least 60), none of the four metric end conditions can hold. |
| CatalogFacts.LegendaryMeansPerfect | data/scenarios.ts:89-95 | On clamped metrics, `legendary_steward` (some metric at least 100) holds exactly when some metric is 100. |
| Playthrough.GameIsWellFormed | data/scenarios.ts:105-453 | The shipped content is well formed: ten scenarios in turn-window order with distinct keys, and badges with distinct ids that none of the starting metrics earn. |
| Playthrough.Step | App.tsx:129-145 | A choice opens the feedback overlay with the option's heading and impacts and logs exactly one entry. Dismissing or restarting closes the overlay. Loading keeps the overlay as it was. Loading and dismissing leave the log and the metrics alone. |
| Playthrough.LogFollowsExtends | App.tsx:123 | Appending turn k + 1 on the k-th scenario to a log that follows the catalog keeps it following the catalog. |
| Playthrough.InitialInv | App.tsx:23-32 | The initial session satisfies the invariant for any well-formed content. |
| Playthrough.UsedTitlesOfLog | App.tsx:54-56 | For a log that follows the catalog, the first k titles are used and the k-th is not. |
| Playthrough.NextIsPosition | App.tsx:55-62 | When the first k scenarios are used and the k-th is unused and has the phase, selection returns it by phase match. |
| Playthrough.LoadUsesPhaseMatch | App.tsx:46-69 | In a session that satisfies the invariant, loading activates the scenario of the current turn by phase match (never the fallback) and stores that turn's phase. |
| Playthrough.LoadPreservesInv | App.tsx:39-73 | The loading effect keeps the invariant. |
| Playthrough.UnlockKeepsConsistent | App.tsx:104-109 | After a choice the badge list still holds only catalog ids, has no duplicates, includes every badge that holds on the new metrics, and holds twin badges together or not at all. |
| Playthrough.ChooseKeepsCatalog | App.tsx:112-124 | A choice logs the active scenario, which is the one of the current turn, so the log keeps following the catalog. |
| Playthrough.ChooseKeepsEnd | App.tsx:276-279 | After a choice that ends the game, success on the end screen coincides with the term-limit reason. |
| Playthrough.ChoosePreservesInv | App.tsx:75-134 | A choice keeps the invariant. |
| Playthrough.AcknowledgePreservesInv | App.tsx:136-145 | Dismissing the overlay keeps the invariant. |
| Playthrough.RestartPreservesInv | App.tsx:147-160 | A restart keeps the invariant. |
| Playthrough.StepPreservesInv | App.tsx:39-168 | Every enabled action keeps the invariant. |
| Playthrough.RunPreservesInv | App.tsx:39-168 | Any sequence of enabled actions keeps the invariant. |
| Playthrough.InvIsPlayable | App.tsx:98-100 | The invariant implies that the turn is within 1..10, the metrics are in range, no badge repeats, the active scenario is the catalog's scenario for the turn, and an ended game never has the exhaustion reason. |
| Playthrough.ReachableFacts | App.tsx:39-168 | Every session reachable from the start with well-formed content is playable in that sense. |
| Playthrough.FixedScenarioSequence | App.tsx:53-62 | In any two reachable sessions at the same turn, the same scenario is active, whatever the player chose before. |
| Playthrough.DigitalBridgesHeldTogether | data/scenarios.ts:40-102 | In every reachable session of the shipped game, `digital_bridge` is unlocked exactly when `digital_divide_bridge` is. |
| Playthrough.LastChoiceEndsGame | App.tsx:98-100 | In a session that satisfies the invariant, the choice on turn 10 always ends the game. |
| Playthrough.LogCountsChoices | App.tsx:104-145 | Without a restart: the log only grows, by exactly one entry per choice; the turn never decreases; the badge list only grows, so it empties only through a reset; and an ended game stays ended. |

## Left out

- The JSX rendering, the metric charts, the sound effects and the `BadgeIcon` lookup are left out. They display state and do not change it.
- The intro screen (`showIntro`) and the mobile log toggle are left out. The loading effect is modelled as the explicit `LoadScenario` action, enabled whenever no scenario is active and the game is on. A restart returns to the intro in the source, so here the next load simply comes later.
- React's effect timing and stale closures are left out. Each handler reads the state it is given and returns the next state atomically.
- Display prose is carried as empty strings in `Catalog`: badge descriptions, scenario descriptions, option descriptions and feedback paragraphs. No transition computes on them; a choice copies the option's feedback paragraph into the overlay, and here that paragraph is blank. Ids, titles, option texts, feedback headings, badge names, icons, phases and impacts are as in the source.
- The game-over reason is an `EndReason` value rather than the reason text. `Engine.ReasonText` maps each value to the exact text the source writes, and `Continuing` to the empty string that a continuing choice stores. No property is proved about the texts.
- Badge conditions are the lambdas of `data/scenarios.ts`, written as values of the `BadgeRule` datatype (single, paired, all and any thresholds). `Holds` interprets them.
- The catalog is a parameter of the handlers. The playthrough results assume `WellFormed` content, and the shipped content is proved to satisfy it.
- Playthrough.Enabled: choosing requires that the overlay is closed, the game is on, and the option belongs to the active scenario's card. These are the render guards of the end screen, the scenario card and the overlay. `SelectOption` itself is total, as in the source.

Three details follow the source as written:

- `Engine.DerivePhase` keeps the current phase for turns up to 2; in reachable states that phase is technical.
- Scenarios are de-duplicated by title. `CatalogFacts.ScenarioKeys` shows that titles are unique in the shipped catalog, so keying on title is sound there.
- A choice that does not end the game stores the empty reason, written `Continuing`.
