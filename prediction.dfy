/**
 * The "Predict Stop Outcome & Violation" form: a fixed two-rule heuristic,
 * not a learned model. Age comes from a number input bounded to 16..100
 * and the hour from the form's time input.
 */
module Prediction {
  import opened Records

  /** The values the driver-age number input can produce. */
  type FormAge = a: int | 16 <= a <= 100 witness 16

  /** The age limit above which a stop ends in a citation. */
  const CITATION_AGE_ABOVE := 25

  /** The traffic-hours window, `range(7, 19)`: 7 through 18. */
  const DAYTIME_FIRST := 7
  const DAYTIME_END := 19

  /** Line 138: the simulated outcome is a citation for drivers over 25, a warning otherwise. */
  function SimulatedOutcome(age: FormAge): (outcome: string)
    ensures outcome == "Citation" || outcome == "Warning"
    ensures outcome == "Citation" <==> age > 25
  {
    if age > CITATION_AGE_ABOVE then "Citation" else "Warning"
  }

  /** Line 139: the simulated violation is speeding in the hours 7..18, equipment otherwise. */
  function SimulatedViolation(hour: Hour): (violation: string)
    ensures violation == "Speeding" || violation == "Equipment"
    ensures violation == "Speeding" <==> 7 <= hour <= 18
  {
    if DAYTIME_FIRST <= hour < DAYTIME_END then "Speeding" else "Equipment"
  }

  datatype Predicted = Predicted(outcome: string, violation: string)

  /**
   * Lines 138-139 together, as the form shows them after submission: a
   * citation exactly for drivers over 25, speeding exactly for stops in
   * the hours 7 to 18, and otherwise a warning and an equipment violation.
   */
  function Predict(age: FormAge, hour: Hour): (p: Predicted)
    ensures p.outcome == "Citation" || p.outcome == "Warning"
    ensures p.outcome == "Citation" <==> age > 25
    ensures p.violation == "Speeding" || p.violation == "Equipment"
    ensures p.violation == "Speeding" <==> 7 <= hour <= 18
  {
    Predicted(SimulatedOutcome(age), SimulatedViolation(hour))
  }

  /** The window edges: 19 is excluded by `range(7, 19)`, 7 and 18 are included. */
  lemma DaytimeBoundaries()
    ensures SimulatedViolation(6) == "Equipment" && SimulatedViolation(7) == "Speeding"
    ensures SimulatedViolation(18) == "Speeding" && SimulatedViolation(19) == "Equipment"
    ensures SimulatedOutcome(25) == "Warning" && SimulatedOutcome(26) == "Citation"
  {
  }
}
