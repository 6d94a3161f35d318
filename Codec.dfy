/**
 * A concrete stand-in for the DeepDiff/Delta value-diff codec: values are
 * integers and a delta is the amount to add.  The engine relies on one law
 * only, that applying the diff of two values to the first yields the second.
 */
module Codec {

  type Value = int

  datatype Delta = Delta(offset: int)

  /** `value + delta` in the frame code. */
  function Apply(v: Value, d: Delta): Value {
    v + d.offset
  }

  /** `Delta(diff=DeepDiff(before, after))`. */
  function Diff(before: Value, after: Value): (d: Delta)
    ensures Apply(before, d) == after
  {
    Delta(after - before)
  }
}
