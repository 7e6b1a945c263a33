/**
 What a Rust function of the loader can end in: a value, an `std::io::Error`
 returned through `?`, or a panic that aborts the thread.
 */
module Outcomes {
  import opened BigEndian

  /** The only I/O error the in-memory reads can produce. */
  datatype IoError = UnexpectedEof

  /** The panic sites of src/emnist_loader.rs. */
  datatype Panic =
    | UnknownMagic(magic: I32)   // `_ => panic!()` on the magic number
    | IndexOutOfBounds           // `sizes[1]`, `sizes[2]` on a short size vector
    | MulOverflow                // `sizes[1] * sizes[2]` outside i32 (overflow-checked build)
    | SliceOutOfRange            // `data[start..start + image_shape]` past the end

  datatype Outcome<+T> = Ok(value: T) | Err(error: IoError) | Panicked(panic: Panic)
  {
    predicate IsFailure() {
      !Ok?
    }

    /** Carries an error or a panic over to another value type, as Rust's `?` and unwinding do. */
    function PropagateFailure<U>(): (r: Outcome<U>)
      requires !Ok?
      ensures r.Err? == Err? && r.Panicked? == Panicked?
      ensures Err? ==> r.error == error
      ensures Panicked? ==> r.panic == panic
    {
      match this
      case Err(e) => Err(e)
      case Panicked(p) => Panicked(p)
    }

    function Extract(): T
      requires Ok?
    {
      value
    }
  }
}
