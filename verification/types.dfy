/** Record shapes of the NetSteward game: the five governance metrics, the
    effects an option has on them, scenarios, badges, log entries and the
    whole game state (types.ts). */
module Types {

  /** The conventional optional value; stands for TypeScript's `T | null`
      and for optional (`?:`) fields. */
  datatype Option<+T> = None | Some(value: T)

  /** The five tracked indices (`MetricType`). */
  datatype MetricType = Stability | Openness | Trust | Equity | Innovation

  /** One value per metric. The engine keeps each in [0, 100]; the type
      itself does not, as in the source. */
  datatype Metrics = Metrics(
    stability: int,
    openness: int,
    trust: int,
    equity: int,
    innovation: int)

  /** The value of metric `k` in `m` (`m[k]`). */
  function Get(m: Metrics, k: MetricType): int
  {
    match k
    case Stability => m.stability
    case Openness => m.openness
    case Trust => m.trust
    case Equity => m.equity
    case Innovation => m.innovation
  }

  /** `m` with metric `k` replaced by `v` (`m[k] = v`). */
  function Set(m: Metrics, k: MetricType, v: int): (r: Metrics)
    ensures Get(r, k) == v
    ensures forall j :: j != k ==> Get(r, j) == Get(m, j)
  {
    match k
    case Stability => m.(stability := v)
    case Openness => m.(openness := v)
    case Trust => m.(trust := v)
    case Equity => m.(equity := v)
    case Innovation => m.(innovation := v)
  }

  /** Every metric lies in the closed range [0, 100]. */
  predicate InRange(m: Metrics)
  {
    && 0 <= m.stability <= 100
    && 0 <= m.openness <= 100
    && 0 <= m.trust <= 100
    && 0 <= m.equity <= 100
    && 0 <= m.innovation <= 100
  }

  /** One effect of an option: a signed change of one metric (`MetricChange`). */
  datatype MetricChange = MetricChange(metric: MetricType, value: int)

  /** A choice offered by a scenario (`ScenarioOption`). `requiredBadge` is
      declared by the source but never consulted by any transition. */
  datatype ScenarioOption = ScenarioOption(
    id: string,
    text: string,
    description: string,
    impacts: seq<MetricChange>,
    feedbackTitle: string,
    feedbackText: string,
    requiredBadge: Option<string>)

  /** The stage of a playthrough. `Crisis` is part of the type but is used by
      no scenario and produced by no transition. */
  datatype Phase = Technical | Regional | Policy | Global | Crisis

  /** The organisation a scenario is set in. */
  datatype OrgContext = ICANN | APNIC | IGF | GLOBAL | SECURITY

  datatype Scenario = Scenario(
    id: string,
    phase: Phase,
    orgContext: OrgContext,
    title: string,
    description: string,
    options: seq<ScenarioOption>)

  /** The unlock conditions the badge catalog uses. The source writes each as a
      lambda over `Metrics`; every one of them has one of these shapes. */
  datatype BadgeRule =
    | AtLeast(metric: MetricType, threshold: int)                    // one metric >= t
    | BothAtLeast(first: MetricType, second: MetricType, threshold: int)  // two metrics >= t
    | AllAtLeast(threshold: int)                                     // every metric >= t
    | AnyAtLeast(threshold: int)                                     // some metric >= t

  /** Whether `rule` holds of the snapshot `m` (`badge.condition(m)`). */
  predicate Holds(rule: BadgeRule, m: Metrics)
  {
    match rule
    case AtLeast(k, t) => Get(m, k) >= t
    case BothAtLeast(k1, k2, t) => Get(m, k1) >= t && Get(m, k2) >= t
    case AllAtLeast(t) =>
      m.stability >= t && m.openness >= t && m.trust >= t && m.equity >= t && m.innovation >= t
    case AnyAtLeast(t) =>
      m.stability >= t || m.openness >= t || m.trust >= t || m.equity >= t || m.innovation >= t
  }

  datatype Badge = Badge(
    id: string,
    name: string,
    description: string,
    icon: string,
    condition: BadgeRule)

  /** One resolved turn of the audit trail (`LogEntry`). */
  datatype LogEntry = LogEntry(
    turn: int,
    title: string,
    outcome: string,
    impacts: seq<MetricChange>)

  /** The reason a game ended, one per reason text the controller writes;
      `Continuing` stands for the empty reason a choice records when the game
      goes on. The texts are attached by `Engine.ReasonText`. */
  datatype EndReason =
    | Continuing
    | Collapse
    | LegitimacyLost
    | Fragmentation
    | DigitalDivide
    | TermLimit
    | NoMoreScenarios

  /** The aggregate root of one playthrough (`GameState`). */
  datatype GameState = GameState(
    metrics: Metrics,
    turn: int,
    maxTurns: int,
    history: seq<LogEntry>,
    unlockedBadges: seq<string>,
    currentScenarioId: Option<string>,
    phase: Phase,
    isGameOver: bool,
    gameOverReason: Option<EndReason>)

  /** No element occurs twice in `s`. */
  predicate NoDuplicates<T(==)>(s: seq<T>)
  {
    forall i, j :: 0 <= i < j < |s| ==> s[i] != s[j]
  }
}
