/** Failure-carrying results and the error kinds of the clustering core. */
module Results {

  /** The ways an operation of the core can fail. */
  datatype Error =
    | OutOfRangeSampleSize  // k outside [1, row count] (or a negative cluster count)
    | DrawsExhausted        // the sequence of random draws ran out before k rows were chosen
    | UndefinedPrototype    // the mean of an empty cluster was asked for (0/0)
    | NoConvergence         // the pass budget was used up before a pass changed nothing

  datatype Option<+T> = None | Some(value: T)

  datatype Result<+T> = Ok(value: T) | Err(error: Error)

  datatype Outcome = Pass | Fail(error: Error)
}
