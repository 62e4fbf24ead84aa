/** Results of the reader's operations, in the shape the Rust code reports them. */
module Outcomes {

  /** The `std::io::ErrorKind`s the random-access engine produces itself. */
  datatype ErrorKind = InvalidInput | UnexpectedEof

  /** `Ok` and `Err` are the two arms of Rust's `Result<T, io::Error>`.
      `Panic` stands for a thread panic: an `unwrap` on `None`, a slice index
      out of range, or a `usize` subtraction below zero (debug build). */
  datatype Outcome<+T> = Ok(value: T) | Err(kind: ErrorKind) | Panic

  datatype Option<+T> = None | Some(value: T)

  /** `usize::min`. */
  function Min(a: nat, b: nat): (m: nat)
    ensures m <= a && m <= b
    ensures m == a || m == b
  {
    if a <= b then a else b
  }
}
