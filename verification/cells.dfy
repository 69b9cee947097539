/**
 * Values that reach the dashboards from the CSV loader, after the loader's
 * own conversions: numbers that may be missing, and the outcome of
 * `JSON.parse` on a list-encoded cell.
 */
module Cells {

  datatype Option<T> = None | Some(value: T)

  /** What `JSON.parse` does with a cell: it throws, or it yields an array
      (of strings, in this dataset), or it yields some other value. The
      parser itself is not modelled: every list parser takes it as a
      parameter and is verified for all of its behaviours. */
  datatype JsonOutcome = Throws | ParsedArray(items: seq<string>) | ParsedOther

  /** A JavaScript number: finite, NaN, or one of the two infinities. */
  datatype JsNumber = Finite(value: real) | NaN | PlusInfinity | MinusInfinity
}
