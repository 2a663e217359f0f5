/** Price bars as stored in the `stocks` table, shared by both pipelines. */
module Bars {

  /** One bar of a ticker. `t` is the bar's start time in whole seconds since
      the Unix epoch; the other fields are open, high, low, trade count, close,
      volume and volume-weighted average price, in the table's column order. */
  datatype Bar = Bar(t: int, o: real, h: real, l: real, n: real, c: real, v: real, vw: real)

  /** The outcome of an operation whose source raises an exception on some inputs. */
  datatype Result<+T, +E> = Success(value: T) | Failure(error: E)

  function Abs(x: real): real { if x < 0.0 then -x else x }

  function AbsInt(x: int): int { if x < 0 then -x else x }
}
