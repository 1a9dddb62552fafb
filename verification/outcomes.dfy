/** Option and Result values, and the ways a detection run can fail. */
module Outcomes {

  datatype Option<+T> = None | Some(value: T)

  datatype Result<+T> = Ok(value: T) | Err(failure: Failure)

  /** The exceptions the detector's core can raise once both texts exist. */
  datatype Failure =
    | LitStrWithoutQuote    // `line.index('"')` raises ValueError on a `LitStr ` line
    | QuoteRemWithoutQuote  // the same, on a `QuoteRem ` line
    | ThresholdUnbound      // an unknown sensitivity leaves `threshold` unbound (NameError)
    | NoInstructionText     // older version: `curr_id in None` raises TypeError
}
