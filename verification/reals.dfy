/** The one product law the threshold arguments need. */
module Reals {
  lemma SignKept(x: real, c: real)
    requires 0.0 < c
    ensures (x > 0.0 <==> x * c > 0.0) && (x < 0.0 <==> x * c < 0.0)
  {
  }
}
