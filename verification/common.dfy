/** Building blocks shared by the routing model: optional values, results
    that carry an error, and sums of real sequences. */
module Common {

  /** A value that may be absent: a NaN cell, a search that found nothing. */
  datatype Option<+T> = None | Some(value: T)

  /** Either a computed value or the error the computation raises. */
  datatype Result<+T, +E> = Success(value: T) | Failure(error: E)

  /** Units of demand one truck carries; demand above it needs an extra truck. */
  const TruckCapacity: real := 26.0

  /** A table cell: a number, a text value such as a store name, or NaN. */
  datatype Cell = Num(value: real) | Name(text: string) | Missing

  /** Python's `cell != 0`: false only for the number zero; a text value
      and NaN both compare unequal to 0. */
  predicate NonZero(c: Cell)
  {
    !(c.Num? && c.value == 0.0)
  }

  /** The sum of a sequence of reals, first element first. */
  function Sum(xs: seq<real>): real
  {
    if |xs| == 0 then 0.0 else xs[0] + Sum(xs[1..])
  }
}
