/** What the operators share: a child operator is modelled by the tuples
    one pass over it yields, and an operator that buffers its output
    appends to the buffer on every open(). */
module Operators {
  import opened Types
  import opened TupleDescs

  /** A child's tuples have as many fields as its schema. */
  predicate Conforms(rows: seq<Tuple>, td: TupleDesc)
  {
    forall i :: 0 <= i < |rows| ==> |rows[i].fields| == NumFields(td)
  }

  /** `n` copies of `s`, one after the other. */
  function Repeat(s: seq<Tuple>, n: nat): seq<Tuple>
  {
    if n == 0 then [] else Repeat(s, n - 1) + s
  }
}
