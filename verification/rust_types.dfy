/** Failure-carrying and comparison types shared by every module of the model.
    They mirror the Rust core types the crate's signatures use: `Option`,
    `Result` and `core::cmp::Ordering`. A byte (`u8`) is an integer in 0..=255. */
module RustTypes {

  newtype byte = x: int | 0 <= x < 256

  /** `Option<T>`: a value or nothing. */
  datatype Option<+T> = None | Some(value: T) {
    predicate IsFailure() { None? }

    function PropagateFailure<U>(): Option<U>
      requires None?
    {
      None
    }

    function Extract(): T
      requires Some?
    {
      value
    }
  }

  /** `Result<T, E>`: a value or an error. */
  datatype Result<+T, +E> = Ok(value: T) | Err(error: E) {
    predicate IsFailure() { Err? }

    function PropagateFailure<U>(): Result<U, E>
      requires Err?
    {
      Err(error)
    }

    function Extract(): T
      requires Ok?
    {
      value
    }
  }

  /** `core::cmp::Ordering`. */
  datatype Ordering = Less | Equal | Greater {
    /** The ordering seen from the other operand. */
    function Reverse(): Ordering {
      match this
      case Less => Greater
      case Equal => Equal
      case Greater => Less
    }
  }
}
