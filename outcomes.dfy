/** The ways a root-finding loop can end. The source only prints its result;
    here every loop returns one of these values next to its trace. */
module Outcomes {

  datatype Outcome =
    /** The stopping test held on pass `steps`; `root` is the approximation it accepted. */
    | Converged(root: real, steps: int)
    /** Every allowed pass ran without meeting the stopping test; "Stopped at last" is reported. */
    | Exhausted(last: real)
    /** A guarded denominator was zero: "Zero in the denominator." then "Stopped at last". */
    | ZeroDenominator(last: real)
    /** An unguarded division by zero raised an exception; nothing more is reported. */
    | DivisionByZero
    /** The report names a variable that was never bound, so it raises instead of printing. */
    | UndefinedReport
    /** The not-converged report applies a format string with more conversions than arguments and raises. */
    | FormatError

  /** The iteration cap as a count of passes: a non-positive cap allows none. */
  function Cap(n: int): nat
  {
    if n < 0 then 0 else n
  }
}
