/** Node weights. The source starts every weight at `-float('inf')`, which it
    uses only as an "absent" marker below every real (integer) weight; here
    that marker is the constructor `NegInf`. */
module Weights {

  datatype Weight = NegInf | Fin(value: int)

  /** The order of Python's `<=` on an integer weight and `-inf`. */
  predicate Le(a: Weight, b: Weight)
  {
    match a
    case NegInf => true
    case Fin(x) => b.Fin? && x <= b.value
  }

  predicate Lt(a: Weight, b: Weight)
  {
    !Le(b, a)
  }

  /** Python's `max` on two weights: the least upper bound. */
  function Max(a: Weight, b: Weight): (m: Weight)
    ensures Le(a, m) && Le(b, m)
    ensures m == a || m == b
  {
    if Le(a, b) then b else a
  }

  lemma {:induction false} LeTotalOrder(a: Weight, b: Weight, c: Weight)
    ensures Le(a, a)
    ensures Le(a, b) || Le(b, a)
    ensures Le(a, b) && Le(b, a) ==> a == b
    ensures Le(a, b) && Le(b, c) ==> Le(a, c)
  {
  }
}
