/** Optional values and results with an error, standing in for Python's `None`
    and for the exceptions (or `{"error": ...}` dictionaries) of the source. */
module Wrappers {

  datatype Option<+T> = None | Some(value: T)

  /** The failures the financial core can report. */
  datatype Error =
    | ZeroDivisionError          // a division by zero, or 0.0 raised to a negative power
    | NoHistoricalData(ticker: string)  // the market data source returned no rows

  datatype Result<+T> = Ok(value: T) | Err(error: Error) {

    predicate IsFailure() {
      Err?
    }

    function PropagateFailure<U>(): Result<U>
      requires Err?
    {
      Err(error)
    }

    function Extract(): T
      requires Ok?
    {
      value
    }
  }
}
