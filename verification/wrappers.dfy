/** Optional values and results: the model's stand-ins for Java's null returns and thrown exceptions. */
module Wrappers {

  datatype Option<T> = None | Some(value: T)

  /** The exceptions the modelled Java code can raise. */
  datatype Fault =
    | NullReference     // a null reference was dereferenced or unboxed
    | NoElement         // iterator().next() on an empty collection
    | IndexOutOfRange   // a list, array or string index outside its bounds
    | IllegalArgument   // an IllegalArgumentException raised by a parser check

  datatype Result<T> = Ok(value: T) | Err(fault: Fault) {
    predicate IsFailure() {
      Err?
    }

    function PropagateFailure<U>(): Result<U>
      requires Err?
    {
      Err(fault)
    }

    function Extract(): T
      requires Ok?
    {
      value
    }
  }
}
