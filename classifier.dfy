/**
 * The risk classifier (`compute_decision`): a total, first-match priority
 * rule over a reading. A flame beats dangerous gas, dangerous gas beats a
 * gas warning, and anything else is normal.
 */
module Classifier {
  import opened LineParser

  const Mq2Warn := 250
  const Mq2Danger := 400
  const FlameDetectedValue := 1

  datatype Decision = Normal | Warning | HighRisk

  /** Why the decision was taken; `Reason.Normal` means no hazard. */
  datatype Reason = Normal | GasWarn | GasDanger | Flame

  /** The verdict on one reading. The risk score is kept in thousandths:
      1000, 900, 550 and 50 stand for 1.0, 0.9, 0.55 and 0.05. */
  datatype Classification = Classification(
    flameDetected: bool,
    riskPerMille: nat,
    alarm: bool,
    decision: Decision,
    reason: Reason)

  /** The label the source carries for a decision. */
  function DecisionLabel(d: Decision): string {
    match d
    case Normal => "NORMAL"
    case Warning => "WARNING"
    case HighRisk => "HIGH_RISK"
  }

  /** The label the source carries for a reason. */
  function ReasonLabel(r: Reason): string {
    match r
    case Normal => "NORMAL"
    case GasWarn => "MQ2_WARN"
    case GasDanger => "MQ2_DANGER"
    case Flame => "FLAME"
  }

  // An independent reading of the rule: every hazard present in the
  // reading, ranked, with the decision and score that belong to each.

  /** Severity of a reason; higher is worse. */
  function Rank(r: Reason): nat {
    match r
    case Normal => 0
    case GasWarn => 1
    case GasDanger => 2
    case Flame => 3
  }

  /** The reasons that hold of a reading (`Reason.Normal` always does). */
  function Hazards(d: Reading): set<Reason> {
    {Reason.Normal}
    + (if d.mq2 >= Mq2Warn then {GasWarn} else {})
    + (if d.mq2 >= Mq2Danger then {GasDanger} else {})
    + (if d.flameRaw == FlameDetectedValue then {Flame} else {})
  }

  function DecisionFor(r: Reason): Decision {
    match r
    case Normal => Decision.Normal
    case GasWarn => Warning
    case GasDanger => HighRisk
    case Flame => HighRisk
  }

  function RiskFor(r: Reason): nat {
    match r
    case Normal => 50
    case GasWarn => 550
    case GasDanger => 900
    case Flame => 1000
  }

  /** `compute_decision`. The reason is the most severe hazard present; the
      decision and the score are the ones that reason carries, although the
      source computes them in two separate chains; the alarm is raised
      exactly on a high-risk decision. */
  function ComputeDecision(d: Reading): (c: Classification)
    ensures c.flameDetected <==> d.flameRaw == FlameDetectedValue
    ensures c.reason in Hazards(d)
    ensures forall h :: h in Hazards(d) ==> Rank(h) <= Rank(c.reason)
    ensures c.decision == DecisionFor(c.reason)
    ensures c.riskPerMille == RiskFor(c.reason)
    ensures c.alarm <==> c.decision == HighRisk
  {
    var flameDetected := d.flameRaw == FlameDetectedValue;
    var gasWarn := d.mq2 >= Mq2Warn;
    var gasDanger := d.mq2 >= Mq2Danger;
    var (decision, reason) :=
      if flameDetected then (HighRisk, Flame)
      else if gasDanger then (HighRisk, GasDanger)
      else if gasWarn then (Warning, GasWarn)
      else (Decision.Normal, Reason.Normal);
    var alarm := DecisionLabel(decision) == "HIGH_RISK";
    var risk :=
      if flameDetected then 1000
      else if gasDanger then 900
      else if gasWarn then 550
      else 50;
    Classification(flameDetected, risk, alarm, decision, reason)
  }

  /** Distinct decisions and distinct reasons carry distinct labels. */
  lemma LabelsDistinct(a: Decision, b: Decision, r: Reason, s: Reason)
    ensures DecisionLabel(a) == DecisionLabel(b) <==> a == b
    ensures ReasonLabel(r) == ReasonLabel(s) <==> r == s
  {
  }

  /** A flame pre-empts every gas level. */
  lemma FlamePreempts(d: Reading)
    requires d.flameRaw == FlameDetectedValue
    ensures ComputeDecision(d).decision == HighRisk && ComputeDecision(d).reason == Flame
    ensures ComputeDecision(d).riskPerMille == 1000 && ComputeDecision(d).alarm
  {
  }

  /** Without a flame, the gas thresholds decide, with the danger threshold
      inclusive and taking priority over the warning one. */
  lemma GasTiers(d: Reading)
    requires d.flameRaw != FlameDetectedValue
    ensures d.mq2 >= Mq2Danger ==> ComputeDecision(d) == Classification(false, 900, true, HighRisk, GasDanger)
    ensures Mq2Warn <= d.mq2 < Mq2Danger ==> ComputeDecision(d) == Classification(false, 550, false, Warning, GasWarn)
    ensures d.mq2 < Mq2Warn ==> ComputeDecision(d) == Classification(false, 50, false, Decision.Normal, Reason.Normal)
  {
  }

  /** The score orders strictly by the severity of the reason. */
  lemma RiskOrderedByRank(a: Reading, b: Reading)
    requires Rank(ComputeDecision(a).reason) < Rank(ComputeDecision(b).reason)
    ensures ComputeDecision(a).riskPerMille < ComputeDecision(b).riskPerMille
  {
  }

  /** More gas never lowers the score. */
  lemma RiskMonotoneInGas(a: Reading, b: Reading)
    requires a.flameRaw == b.flameRaw && a.mq2 <= b.mq2
    ensures ComputeDecision(a).riskPerMille <= ComputeDecision(b).riskPerMille
  {
  }

  /** The score stays within 0 and 1. */
  lemma RiskInUnitInterval(d: Reading)
    ensures 0 < ComputeDecision(d).riskPerMille <= 1000
  {
  }
}
