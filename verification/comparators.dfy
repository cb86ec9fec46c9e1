/** The threshold comparators that alpha health and promotion share. */
module Comparators {
  datatype Comparator = Lt | Lte | Gt | Gte

  function ComparatorText(c: Comparator): string {
    match c
    case Lt => "lt"
    case Lte => "lte"
    case Gt => "gt"
    case Gte => "gte"
  }

  predicate Compare(c: Comparator, observed: real, threshold: real) {
    match c
    case Lt => observed < threshold
    case Lte => observed <= threshold
    case Gt => observed > threshold
    case Gte => observed >= threshold
  }

  /** Below and above are strict, each is the other with the sides exchanged, and the other two are their negations. */
  lemma ComparatorsRead(x: real, y: real)
    ensures Compare(Lt, x, y) <==> x < y
    ensures Compare(Gt, x, y) <==> Compare(Lt, y, x)
    ensures Compare(Gte, x, y) <==> !Compare(Lt, x, y)
    ensures Compare(Lte, x, y) <==> !Compare(Gt, x, y)
  {
  }
}
