/** Stock failure-carrying datatypes used across the model. A Go panic or an
    Assertf that the input can trigger becomes an `Err`; a Go `(value, ok)`
    pair becomes an `Option`. */
module Wrappers {

  datatype Option<T> = None | Some(value: T)

  datatype Result<T> = Ok(value: T) | Err(msg: string)
  {
    predicate IsFailure() { Err? }

    function PropagateFailure<U>(): Result<U>
      requires Err?
    {
      Err(msg)
    }

    function Extract(): T
      requires Ok?
    {
      value
    }
  }

  /** Go's `m[k]` on a map: the zero value when the key is absent. */
  function Get<K, V>(m: map<K, V>, k: K, zero: V): V
  {
    if k in m then m[k] else zero
  }
}
