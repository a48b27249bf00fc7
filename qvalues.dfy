/** The entries of the agent's value table. The agent only ever compares
    them (with `>` against the best so far and with `< 0.0`), never adds or
    scales them, so a value is either the sentinel negative infinity that the
    table is filled with or a finite real. */
module QValues {

  /** A value-table entry: Python's `-float('inf')`, or a finite float. */
  datatype Value = NegInf | Finite(r: real)

  /** Python's `x > y` on these values: negative infinity is greater than
      nothing, and every finite value is greater than negative infinity. */
  predicate Greater(x: Value, y: Value) {
    match x
    case NegInf => false
    case Finite(a) => y.NegInf? || a > y.r
  }

  /** Python's `x < 0.0`; true of negative infinity. */
  predicate IsNegative(x: Value) {
    x.NegInf? || x.r < 0.0
  }
}
