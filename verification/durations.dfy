/** Time spans as the retry loop uses them: a whole number of nanoseconds,
    or the infinite duration that stands for "wait without a bound". */
module Durations {

  datatype Duration = Finite(nanos: nat) | Infinite {

    /** True for the unbounded wait only. */
    predicate IsInfinite() {
      Infinite?
    }
  }
}
