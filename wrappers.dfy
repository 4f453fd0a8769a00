/** Result wrappers shared by the model: an optional value, and the outcome of a
    Python call, which either returns a value or raises one of the exceptions the
    modelled code can raise. */
module Wrappers {

  datatype Option<+T> = None | Some(value: T)

  /** The Python exceptions that the modelled code paths can raise. */
  datatype PyException =
    | AttributeError   // reading an instance attribute that was never assigned
    | KeyError         // indexing a dict with a key it does not hold
    | TypeError        // comparing a datetime with None
    | OverflowError    // date arithmetic that leaves the range of datetime
    | RequestException // an HTTP call that failed: no connection, a timeout

  /** The outcome of a Python call: a returned value or a raised exception. */
  datatype Outcome<+T> = Returned(value: T) | Raised(exception: PyException)

  /** A sequence of key-value pairs in which no key appears twice: the items of
      a dict, or a parameter list that names each key once. */
  predicate DistinctKeys<K(==), V>(items: seq<(K, V)>) {
    forall i, j :: 0 <= i < j < |items| ==> items[i].0 != items[j].0
  }
}
