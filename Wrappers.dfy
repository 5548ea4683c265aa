/** Failure-carrying values: the model's stand-in for Python's None results
    and for the IndexError the extraction code raises and catches. */
module Wrappers {

  datatype Option<+T> = None | Some(value: T)

  /** The option's content as a list of zero or one element. */
  function OptionToSeq<T>(o: Option<T>): seq<T> {
    match o
    case None => []
    case Some(v) => [v]
  }
}
