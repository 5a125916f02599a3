/** Failure-compatible wrappers shared by the whole model.

    The original program signals every misuse by raising an exception; here each
    raising path returns `Err` with a `Failure` naming what went wrong, and
    absent values (`None` in the original) are `Option`s. */
module Results {

  /** The distinct ways an operation of the model can fail. */
  datatype Failure =
    | DoubleExecution   // an action that was already executed is executed again
    | InvalidAction     // the action does not validate against the current state
    | EmptyDeck         // a card is dealt from an empty deck
    | NotInitialized    // a step is played on a game that was not initialized
    | NoPlayer          // the game has no player object (attribute access on None)
    | UnknownIndex      // an index outside the action catalog is looked up
    | PopFromEmpty      // the replay buffer evicts from an empty column
    | EmptyRange        // a batch index is drawn from an empty range
    | IndexOutOfRange   // a sampled index does not exist in some column
    | EmptyPrediction   // a minimum or maximum is taken over an empty vector
    | ShapeMismatch     // a mask and a value vector differ in length
    | NoValidAction     // a random choice is made among zero legal indices
    | DivisionByZero    // a schedule is taken modulo zero

  datatype Option<+T> = None | Some(value: T)

  datatype Result<+T> = Ok(value: T) | Err(error: Failure) {

    predicate IsFailure() {
      Err?
    }

    function PropagateFailure<U>(): Result<U>
      requires Err?
    {
      Err(error)
    }

    function Extract(): T
      requires Ok?
    {
      value
    }
  }
}
