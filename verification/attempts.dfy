/** The result of one probe: either a value, or the marker that asks the
    loop to try again. The marker is its own variant, so no payload can
    ever be mistaken for it. */
module Attempts {

  datatype Attempt<T> = Value(value: T) | TryAgainMarker {

    /** True exactly for an attempt that carries a value. */
    predicate IsSuccess()
      ensures IsSuccess() <==> this != TryAgainMarker
    {
      Value?
    }

    /** The carried value; asking a try-again marker for one is a contract
        violation of the caller. */
    function Get(): (v: T)
      requires IsSuccess()
      ensures this == Value(v)
    {
      value
    }
  }

  /** An attempt that produced `v`. */
  function Success<T>(v: T): (a: Attempt<T>)
    ensures a.IsSuccess()
    ensures a.Get() == v
  {
    Value(v)
  }

  /** The attempt that asks for another try. */
  function TryAgain<T>(): (a: Attempt<T>)
    ensures !a.IsSuccess()
  {
    TryAgainMarker
  }
}
