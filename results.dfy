/** Error plumbing shared by the codec layer: the crate's `ParquetError`/`io::Error`
    results, plus aborts (`panic!`, `.expect`, `.unwrap()`) which are modelled as
    an error value of their own so that no path of the model stops the program. */
module Results {

  /** The errors a codec call can end with. `Panic` stands for an abort of the
      original program; it is never caught by the codecs' own error handling. */
  datatype Error =
    | General(message: string)   // ParquetError::General
    | Io(message: string)        // io::Error and errors surfaced by a backend
    | Nyi(message: string)       // ParquetError::NYI ("not yet implemented")
    | Panic(message: string)     // an abort: panic!, .expect(..) or .unwrap() on an error

  datatype Result<+T> = Ok(value: T) | Err(error: Error)

  datatype Option<+T> = None | Some(value: T)

  /** What a call that appends to a caller-owned buffer leaves behind:
      the value it returns and the new contents of that buffer. */
  datatype Effect<+T, +E> = Effect(result: Result<T>, buf: seq<E>)

  /** True when `r` is an abort rather than an ordinary error. */
  predicate Panicked<T>(r: Result<T>) {
    r.Err? && r.error.Panic?
  }
}
