/** Result types shared by the models of the individual source files. */
module Wrappers {

  /** An optional value. */
  datatype Option<+T> = None | Some(value: T)

  /** What a call that may panic does: it panics, or it returns a value. */
  datatype Outcome<+T> = Panic | Returns(value: T)

  /** An I/O result; the only error the models need is a reader that runs dry. */
  datatype Result<+T> = UnexpectedEof | Ok(value: T)
}
