/** Results of Python calls. */
module Outcomes {

  /** A Python call either yields a value or raises. */
  datatype Outcome<+T> = Ok(value: T) | Raised
}
