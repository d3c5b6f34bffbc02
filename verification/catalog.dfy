/** The fixed content of the game (data/scenarios.ts): the starting metrics,
    the badge catalog and the ordered scenario catalog. Nothing here changes
    at run time. Ids, titles, option labels, feedback headings, badge names,
    icons, phases and impacts are as in the source; the display prose (badge,
    scenario and option descriptions and feedback paragraphs) is carried as
    empty strings. No transition computes on it: a choice only copies the
    option's feedback paragraph into the overlay. */
module Catalog {
  import opened Types

  /** Every index starts at 50. */
  const InitialMetrics := Metrics(50, 50, 50, 50, 50)

  /** The badges, in the order the engine evaluates them. */
  const Badges: seq<Badge> := [
    Badge("stability_guardian", "Root Guardian",
      "",
      "ShieldCheck", AtLeast(Stability, 80)),
    Badge("innovation_catalyst", "Innovation Catalyst",
      "",
      "Cpu", AtLeast(Innovation, 80)),
    Badge("diplomat", "Global Diplomat",
      "",
      "Handshake", AtLeast(Trust, 80)),
    Badge("open_web", "Open Web Hero",
      "",
      "Globe2", AtLeast(Openness, 80)),
    Badge("digital_bridge", "Digital Bridge",
      "",
      "Scale", AtLeast(Equity, 80)),
    Badge("master_balancer", "Master Balancer",
      "",
      "Layout", AllAtLeast(60)),
    Badge("peoples_champion", "People's Champion",
      "",
      "Heart", BothAtLeast(Trust, Openness, 75)),
    Badge("technocrat", "Benevolent Technocrat",
      "",
      "Zap", BothAtLeast(Innovation, Stability, 75)),
    Badge("digital_humanist", "Digital Humanist",
      "",
      "UserCheck", BothAtLeast(Openness, Equity, 75)),
    Badge("trusted_innovator", "Trusted Innovator",
      "",
      "Lightbulb", BothAtLeast(Innovation, Trust, 75)),
    Badge("inclusive_guardian", "Inclusive Guardian",
      "",
      "Umbrella", BothAtLeast(Stability, Equity, 75)),
    Badge("legendary_steward", "Legendary Steward",
      "",
      "Star", AnyAtLeast(100)),
    Badge("digital_divide_bridge", "Digital Divide Bridge",
      "",
      "Link", AtLeast(Equity, 80))
  ]

  /** The turn window each phase's scenarios are written for, as the section
      comments of the catalog give them: technical for turns 1-2, regional for
      3-5, policy for 6-8, global from 9 on. Turns before 1 count as technical. */
  function PhaseWindow(turn: int): Phase
  {
    if turn <= 2 then Technical
    else if turn <= 5 then Regional
    else if turn <= 8 then Policy
    else Global
  }

  /** The scenarios in presentation order: two technical (turns 1-2), three
      regional (turns 3-5), three policy (turns 6-8), two global (turns 9-10). */
  const Scenarios: seq<Scenario> := [
    Scenario(
      "ipv4_exhaustion", Technical, APNIC,
      "The Address Shortage",
      "",
      [
        ScenarioOption(
          "market_forces", "Allow Market Trading",
          "",
          [MetricChange(Innovation, 5), MetricChange(Equity, -15), MetricChange(Stability, 5)],
          "Market Efficiency, but at a Cost",
          "",
          None),
        ScenarioOption(
          "push_ipv6", "Mandate IPv6 Transition",
          "",
          [MetricChange(Innovation, 20), MetricChange(Stability, -10), MetricChange(Trust, -5)],
          "Technical Disruption",
          "",
          None),
        ScenarioOption(
          "cgnat", "Deploy Carrier-Grade NAT",
          "",
          [MetricChange(Stability, 10), MetricChange(Openness, -10), MetricChange(Innovation, -10)],
          "A Band-Aid Solution",
          "",
          None)
      ]),
    Scenario(
      "dns_root_security", Technical, ICANN,
      "DNSSEC Deployment",
      "",
      [
        ScenarioOption(
          "fast_track", "Emergency Deployment",
          "",
          [MetricChange(Stability, -15), MetricChange(Trust, 10)],
          "Breaking Changes",
          "",
          None),
        ScenarioOption(
          "voluntary", "Voluntary Adoption",
          "",
          [MetricChange(Stability, 5), MetricChange(Trust, -10), MetricChange(Openness, 5)],
          "Slow and Steady",
          "",
          None)
      ]),
    Scenario(
      "new_gtlds", Regional, ICANN,
      "Expansion of Domain Names",
      "",
      [
        ScenarioOption(
          "restrictive", "Limit Expansion",
          "",
          [MetricChange(Stability, 10), MetricChange(Innovation, -15), MetricChange(Openness, -5)],
          "Conservative Governance",
          "",
          None),
        ScenarioOption(
          "liberal", "Open the Floodgates",
          "",
          [MetricChange(Innovation, 15), MetricChange(Trust, -10), MetricChange(Openness, 10)],
          "A Wild West",
          "",
          None)
      ]),
    Scenario(
      "digital_divide", Regional, APNIC,
      "Infrastructure in the Pacific",
      "",
      [
        ScenarioOption(
          "subsidize", "Fee Reductions",
          "",
          [MetricChange(Equity, 20), MetricChange(Trust, 5), MetricChange(Innovation, -5)],
          "Closing the Gap",
          "",
          None),
        ScenarioOption(
          "neutrality", "Strict Neutrality",
          "",
          [MetricChange(Equity, -15), MetricChange(Trust, -5), MetricChange(Stability, 5)],
          "Technically Fair, Socially Unfair",
          "",
          None)
      ]),
    Scenario(
      "cable_cut_crisis", Regional, APNIC,
      "Submarine Cable Severed",
      "",
      [
        ScenarioOption(
          "prioritize_traffic", "Prioritize Critical Traffic",
          "",
          [MetricChange(Stability, 15), MetricChange(Openness, -20), MetricChange(Equity, -5)],
          "Triage Mode",
          "",
          None),
        ScenarioOption(
          "emergency_reroute", "Expensive Satellite Reroute",
          "",
          [MetricChange(Equity, -10), MetricChange(Trust, 10), MetricChange(Stability, 5)],
          "Costly Connection",
          "",
          None)
      ]),
    Scenario(
      "internet_shutdowns", Policy, IGF,
      "Government Shutdowns",
      "",
      [
        ScenarioOption(
          "condemn", "Issue Strong Condemnation",
          "",
          [MetricChange(Openness, 15), MetricChange(Trust, -10)],
          "Political Backlash",
          "",
          None),
        ScenarioOption(
          "technical_neutrality", "Claim \"Out of Scope\"",
          "",
          [MetricChange(Openness, -15), MetricChange(Trust, 10), MetricChange(Stability, 5)],
          "Safe Silence",
          "",
          None)
      ]),
    Scenario(
      "encryption_wars", Policy, SECURITY,
      "Encryption Backdoors",
      "",
      [
        ScenarioOption(
          "refuse_backdoors", "Defend Encryption",
          "",
          [MetricChange(Trust, 10), MetricChange(Openness, 10), MetricChange(Stability, -5)],
          "Holding the Line",
          "",
          None),
        ScenarioOption(
          "compromise_keys", "Key Escrow System",
          "",
          [MetricChange(Trust, -20), MetricChange(Openness, -10), MetricChange(Stability, 5)],
          "Trust Broken",
          "",
          None)
      ]),
    Scenario(
      "ai_disinformation", Policy, IGF,
      "The Botnet Flood",
      "",
      [
        ScenarioOption(
          "verify_humans", "Mandatory Human ID",
          "",
          [MetricChange(Stability, 15), MetricChange(Openness, -25), MetricChange(Trust, -5)],
          "End of Anonymity",
          "",
          None),
        ScenarioOption(
          "scale_infra", "Absorb the Load",
          "",
          [MetricChange(Stability, -5), MetricChange(Equity, -10), MetricChange(Openness, 10)],
          "Expensive Freedom",
          "",
          None)
      ]),
    Scenario(
      "splinternet", Global, GLOBAL,
      "The Splinternet Threat",
      "",
      [
        ScenarioOption(
          "bridge", "Diplomatic Compromise",
          "",
          [MetricChange(Stability, 10), MetricChange(Openness, -20), MetricChange(Trust, -10)],
          "A Broken Mirror",
          "",
          None),
        ScenarioOption(
          "resist", "Defend Open Standards",
          "",
          [MetricChange(Openness, 15), MetricChange(Stability, -20), MetricChange(Trust, 5)],
          "Drawing a Line",
          "",
          None)
      ]),
    Scenario(
      "orbital_sovereignty", Global, GLOBAL,
      "Orbital Internet",
      "",
      [
        ScenarioOption(
          "sovereign_respect", "Enforce Local Laws",
          "",
          [MetricChange(Stability, 10), MetricChange(Openness, -15), MetricChange(Innovation, -5)],
          "Borders in the Sky",
          "",
          None),
        ScenarioOption(
          "free_sky", "Declare Space Neutral",
          "",
          [MetricChange(Openness, 20), MetricChange(Stability, -15), MetricChange(Equity, 10)],
          "Star Wars?",
          "",
          None)
      ])
  ]

  /** The content a game runs over: the scenario and badge catalogs. */
  datatype Content = Content(scenarios: seq<Scenario>, badges: seq<Badge>)

  /** The content of the shipped game. */
  const Game := Content(Scenarios, Badges)
}
