/** The three independent configuration axes of the solver. Each enum's
    first variant is the default: the one the solver uses for any name it
    does not recognise. */
module Heuristics {

  /** Variable selection; default: first unassigned. */
  datatype VariableHeuristic = FirstUnassigned | MinimumRemainingValue | DegreeHeuristic | MrvWithTieBreaker

  /** Value ordering; default: ascending order. */
  datatype ValueHeuristic = ValuesInOrder | LeastConstrainingValue

  /** Consistency strategy; default: the plain assignments check. */
  datatype ConsistencyHeuristic = AssignmentsCheck | ForwardChecking | NorvigCheck
}
