/**
 * Failures of the solver. The source signals every failure with one exception
 * type from a design-by-contract library; the model returns the failure as a
 * value instead, and keeps the reason as an error kind. Every kind is caught
 * alike by the backtracking rule, which prunes the branch that raised it.
 */
module Dbc {

  datatype Error =
    | InvalidVal(n: int)                  // Val.of: no constant with this number
    | SecondTime                          // Cell.setFinalVal: cell already decided at a step > 0
    | Impossible                          // Cell.setFinalVal: value not among the candidates
    | NotSingleValued                     // Cell.getTheFinalVal: not exactly one candidate left
    | WrongCellCount                      // State constructor: not 81 cells
    | EmptyDomain(idx: int)               // State.valid: a cell without candidates
    | DuplicateValue(group: int, idx: int) // State.valid: two single-valued cells of a group agree
    | NoSolutionForCell(idx: int)         // ruleBacktracker: every candidate of the picked cell failed
    | NoSolutionAtAll                     // ruleBacktracker: no cell left to pick
    | InvalidSize                         // Do.check: length is not 81
    | InvalidChars                        // Do.check: a character outside '1'..'9', ' ', '.'

  datatype Result<T> = Ok(value: T) | Fail(error: Error)

  datatype Option<T> = None | Some(value: T)

  datatype Outcome = Pass | Failed(error: Error)
}
