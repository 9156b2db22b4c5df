/**
 * Failure-carrying result types shared by the whole model.
 * The simulation signals programmer errors by throwing; where such a throw depends on
 * data rather than on a caller's promise, the model returns a `Failure` instead.
 */
module Wrappers {

  datatype Option<+T> = None | Some(value: T) {

    /** The value when present, `default` otherwise. */
    function GetOr(default: T): T {
      match this
      case Some(v) => v
      case None => default
    }
  }

  /** Why an operation of the model did not complete. */
  datatype Error =
    | InvalidOperator(symbol: string)     // an operator symbol none of +, −, ×, ÷
    | Unsupported(operation: string)      // an operation a creator refuses by design
    | NotAFunction(methodName: string)     // a term lacks the method the dispatch calls
    | NoInverseCreator                    // a sign mismatch with no inverse creator to forward to
    | CellOccupied(cell: int)             // a term would be put into an occupied cell
    | InvalidCell(cell: int)              // a cell index outside the grid
    | PlateFull                           // no empty cell was left on the plate
    | InvalidOption(reason: string)       // a construction option was rejected
    | UnsupportedKind                     // a creator of a kind the code does not handle
    | Inconsistent(reason: string)        // a state that one of the simulation's assertions rules out

  datatype Result<+T> = Success(value: T) | Failure(error: Error)
}
