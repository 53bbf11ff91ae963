/** Option and Result types for the model. `Panic` stands for a Rust panic
    (an `unwrap` on `None`/`Err`, a division by zero, an explicit `panic!`). */
module Wrappers {

  datatype Option<+T> = None | Some(value: T)

  datatype Result<+T> = Ok(value: T) | Panic(reason: string) {

    predicate IsFailure() {
      Panic?
    }

    function PropagateFailure<U>(): Result<U>
      requires Panic?
    {
      Panic(reason)
    }

    function Extract(): T
      requires Ok?
    {
      value
    }
  }
}
